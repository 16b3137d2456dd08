/**
 * The event base: the queue of inserted events, the queues of active events by
 * priority, the heap of timed events, the flags and the counters that must agree
 * with them, and the expiry of timers.
 */
module EventCore {
  import opened Basics
  import opened MinHeap

  // ---------------------------------------------------------------- queues as sequences

  // The queue without the events of gone, in the same order.
  function Excluding<T(==)>(s: seq<T>, gone: set<T>): seq<T> {
    if s == [] then []
    else if s[0] in gone then Excluding(s[1..], gone)
    else [s[0]] + Excluding(s[1..], gone)
  }

  ghost predicate Distinct<T>(s: seq<T>) {
    forall i, j {:trigger s[i], s[j]} :: 0 <= i < j < |s| ==> s[i] != s[j]
  }

  function TotalLength<T>(qs: seq<seq<T>>): nat {
    if qs == [] then 0 else |qs[0]| + TotalLength(qs[1..])
  }

  lemma {:induction false} ExcludingMembers<T>(s: seq<T>, gone: set<T>)
    ensures forall e :: e in Excluding(s, gone) ==> e in s && e !in gone
    ensures forall e :: e in s && e !in gone ==> e in Excluding(s, gone)
    ensures |Excluding(s, gone)| <= |s|
  {
    if s != [] {
      ExcludingMembers(s[1..], gone);
    }
  }

  lemma {:induction false} ExcludingDistinct<T>(s: seq<T>, gone: set<T>)
    requires Distinct(s)
    ensures Distinct(Excluding(s, gone))
  {
    if s != [] {
      ExcludingDistinct(s[1..], gone);
      ExcludingMembers(s[1..], gone);
      assert forall j :: 0 < j < |s| ==> s[j] != s[0];
      assert s[0] !in s[1..];
    }
  }

  lemma {:induction false} ExcludingNone<T>(s: seq<T>, gone: set<T>)
    requires forall e :: e in s ==> e !in gone
    ensures Excluding(s, gone) == s
  {
    if s != [] {
      ExcludingNone(s[1..], gone);
    }
  }

  lemma {:induction false} ExcludingOne<T>(s: seq<T>, e: T)
    requires Distinct(s) && e in s
    ensures |Excluding(s, {e})| == |s| - 1
  {
    if s[0] == e {
      assert e !in s[1..];
      ExcludingNone(s[1..], {e});
    } else {
      ExcludingOne(s[1..], e);
    }
  }

  // An event leaves a queue; the others stay in their order.
  lemma {:induction false} ExcludingAt<T>(before: seq<T>, e: T, behind: seq<T>)
    requires e !in before && e !in behind
    ensures Excluding(before + [e] + behind, {e}) == before + behind
  {
    ExcludingConcat(before, [e], {e});
    ExcludingConcat(before + [e], behind, {e});
    ExcludingNone(before, {e});
    ExcludingNone(behind, {e});
  }

  lemma {:induction false} ExcludingTwice<T>(s: seq<T>, a: set<T>, b: set<T>)
    ensures Excluding(Excluding(s, a), b) == Excluding(s, a + b)
  {
    if s != [] {
      ExcludingTwice(s[1..], a, b);
      assert s[0] !in a ==> Excluding(s, a)[1..] == Excluding(s[1..], a);
    }
  }

  lemma {:induction false} ExcludingCons<T>(x: T, s: seq<T>, gone: set<T>)
    ensures Excluding([x] + s, gone) == (if x in gone then [] else [x]) + Excluding(s, gone)
  {
    assert ([x] + s)[1..] == s;
  }

  lemma {:induction false} ExcludingConcat<T>(s: seq<T>, t: seq<T>, gone: set<T>)
    ensures Excluding(s + t, gone) == Excluding(s, gone) + Excluding(t, gone)
  {
    if s == [] {
      assert s + t == t;
    } else {
      var x, rest := s[0], s[1..];
      ExcludingConcat(rest, t, gone);
      ExcludingCons(x, rest, gone);
      ExcludingCons(x, rest + t, gone);
      assert s == [x] + rest && s + t == [x] + (rest + t);
    }
  }

  lemma {:induction false} TotalLengthUpdate<T>(qs: seq<seq<T>>, k: nat, q: seq<T>)
    requires k < |qs|
    ensures TotalLength(qs[k := q]) == TotalLength(qs) - |qs[k]| + |q|
  {
    if k == 0 {
      assert qs[k := q][1..] == qs[1..];
    } else {
      TotalLengthUpdate(qs[1..], k - 1, q);
      assert qs[k := q][1..] == qs[1..][k - 1 := q];
    }
  }

  lemma {:induction false} EmptyQueues<T>(qs: seq<seq<T>>)
    requires forall k :: 0 <= k < |qs| ==> qs[k] == []
    ensures TotalLength(qs) == 0
  {
    if qs != [] {
      EmptyQueues(qs[1..]);
    }
  }

  lemma {:induction false} SomeQueue<T>(qs: seq<seq<T>>)
    requires TotalLength(qs) > 0
    ensures exists k :: 0 <= k < |qs| && qs[k] != []
  {
    if qs[0] == [] {
      SomeQueue(qs[1..]);
      var k :| 0 <= k < |qs[1..]| && qs[1..][k] != [];
      assert qs[k + 1] != [];
    }
  }

  // Taking the head off a queue without duplicates leaves its tail.
  lemma {:induction false} TailRemains<T>(q: seq<T>)
    requires Distinct(q) && q != []
    ensures Excluding(q, {q[0]}) == q[1..]
  {
    assert forall e :: e in q[1..] ==> e != q[0];
    ExcludingNone(q[1..], {q[0]});
  }

  // ---------------------------------------------------------------- what the queues and flags say of each other

  // The flags and the priority of every event of a base.
  datatype View = View(flags: Flags, pri: int)
  type Views<!T> = map<T, View>

  ghost predicate InsertedAgree<T>(v: Views<T>, q: seq<T>) {
    Distinct(q) &&
    (forall e :: e in q ==> e in v) &&
    (forall e {:trigger v[e]} {:trigger e in q} :: e in v ==> (v[e].flags.inserted <==> e in q))
  }

  ghost predicate TimedAgree<T>(v: Views<T>, timed: set<T>) {
    timed <= v.Keys &&
    (forall e {:trigger v[e]} {:trigger e in timed} :: e in v ==> (v[e].flags.timeout <==> e in timed))
  }

  // Active events sit, once, in the queue of their priority and in no other.
  ghost predicate ActiveAgree<T>(v: Views<T>, qs: seq<seq<T>>) {
    (forall e {:trigger v[e]} :: e in v ==> 0 <= v[e].pri < |qs|) &&
    (forall k, e {:trigger e in qs[k]} :: 0 <= k < |qs| && e in qs[k] ==> e in v) &&
    (forall k, e {:trigger e in qs[k]} :: 0 <= k < |qs| && e in v ==>
      (e in qs[k] <==> v[e].flags.active && v[e].pri == k)) &&
    (forall k :: 0 <= k < |qs| ==> Distinct(qs[k]))
  }

  // The number of queues an event is on, none if it is internal.
  function Bits(w: View): nat {
    if w.flags.internal then 0
    else
      (if w.flags.timeout then 1 else 0) + (if w.flags.inserted then 1 else 0) + (if w.flags.active then 1 else 0)
  }

  ghost function Some<T>(v: Views<T>): (e: T)
    requires v.Keys != {}
    ensures e in v
  {
    var e :| e in v;
    e
  }

  // The number of queue memberships of events that are not internal.
  ghost function Memberships<T>(v: Views<T>): nat
    decreases |v.Keys|
  {
    if v.Keys == {} then 0
    else
      var e := Some(v);
      assert (v - {e}).Keys == v.Keys - {e};
      Bits(v[e]) + Memberships(v - {e})
  }

  ghost function Flagged<T>(v: Views<T>, e: T, q: Queue, b: bool): Views<T>
    requires e in v
  {
    v[e := v[e].(flags := Set(v[e].flags, q, b))]
  }

  // What one queue membership adds to event_count.
  function Weight(w: View): nat {
    if w.flags.internal then 0 else 1
  }

  // The event is on no queue.
  ghost function Idle<T>(v: Views<T>, e: T): Views<T>
    requires e in v
  {
    v[e := v[e].(flags := Flags(false, false, false, v[e].flags.internal))]
  }

  // The flags of an event that has left the active queue, and every other queue unless it is persistent.
  function Served(w: View, persist: bool): View {
    if persist then w.(flags := w.flags.(active := false))
    else w.(flags := Flags(false, false, false, w.flags.internal))
  }

  // The event e, and no other, has been served.
  ghost predicate HasServed<T>(v0: Views<T>, v: Views<T>, e: T, persist: bool) {
    // A let expression keeps the verifier from splitting this into parts.
    var served := e in v && v.Keys == v0.Keys && v[e] == Served(v0[e], persist) &&
                  forall d {:trigger v[d]} :: d in v && d != e ==> v[d] == v0[d];
    served
  }

  lemma {:induction false} IdleBySteps<T>(v: Views<T>, e: T)
    requires e in v
    ensures Flagged(Flagged(Flagged(v, e, Timeout, false), e, Active, false), e, Inserted, false) == Idle(v, e)
  {
  }

  // The flags of an event once its timeout is set: one that is active because its
  // previous timeout expired is active no more.
  ghost function Retimed<T>(v: Views<T>, e: T, res: What): Views<T>
    requires e in v
  {
    v[e := v[e].(flags := v[e].flags.(timeout := true, active := v[e].flags.active && !res.timeout))]
  }

  ghost function Unexpired<T>(v: Views<T>, e: T, res: What): Views<T>
    requires e in v
  {
    if v[e].flags.active && res.timeout then Flagged(v, e, Active, false) else v
  }

  // The active queues once the expiry of e, if that is why it is active, is cancelled.
  function Cancelled<T(==)>(qs: seq<seq<T>>, e: T, pri: int, active: bool, res: What): seq<seq<T>> {
    if active && res.timeout && 0 <= pri < |qs| then qs[pri := Excluding(qs[pri], {e})] else qs
  }

  lemma {:induction false} RetimedBySteps<T>(v: Views<T>, e: T, res: What)
    requires e in v
    ensures Retimed(v, e, res) == Flagged(Unexpired(Flagged(v, e, Timeout, false), e, res), e, Timeout, true)
  {
  }

  // The dispatcher: the number of the dispatch that is running, 0 if none is; how many
  // there have been; the calls left of the event it is at, ncalls of event_process_active;
  // and whether the count of a dispatch that is over has been written to.
  datatype Loop = Loop(frame: nat, dispatches: nat, left: nat, wild: bool)

  // What *ev_pncalls = 0 does: it stops the calls of the running dispatch, or writes to
  // the count of one that is over.
  function Stopped(call: Call, loop: Loop): Loop {
    if call.ncalls == 0 || call.frame == 0 then loop
    else if call.frame == loop.frame then loop.(left := 0)
    else loop.(wild := true)
  }

  // The dispatcher, once the expiry it is running is cancelled.
  function LeftOf(active: bool, call: Call, loop: Loop): Loop {
    if active && call.res.timeout then Stopped(call, loop) else loop
  }

  lemma LeftOnward(active: bool, call: Call, loop: Loop)
    ensures Onward(loop, LeftOf(active, call, loop))
  {
  }

  // What a call of the library leaves of the dispatcher.
  predicate Onward(was: Loop, loop: Loop) {
    // A let expression keeps the verifier from splitting this into parts.
    var onward := loop.frame == was.frame && loop.dispatches == was.dispatches && loop.left <= was.left &&
                  (was.wild ==> loop.wild);
    onward
  }

  // Whether event_add must ask the backend to watch the event.
  predicate WantsBackend(flags: Flags, events: What) {
    (events.read || events.write || events.signal) && !(flags.inserted || flags.active)
  }

  // The flags after a successful event_add.
  ghost function Added<T>(v: Views<T>, e: T, events: What, res: What, timed: bool): Views<T>
    requires e in v
  {
    var w := if WantsBackend(v[e].flags, events) then Flagged(v, e, Inserted, true) else v;
    if timed then Retimed(w, e, res) else w
  }

  // What these flags are.
  lemma {:induction false} AddedFlags<T>(v: Views<T>, e: T, events: What, res: What, timed: bool)
    requires e in v
    ensures Added(v, e, events, res, timed).Keys == v.Keys
    ensures var f, g := v[e].flags, Added(v, e, events, res, timed)[e].flags;
      (g.inserted <==> f.inserted || ((events.read || events.write || events.signal) && !f.active)) &&
      (g.timeout <==> f.timeout || timed) &&
      (g.active <==> f.active && !(timed && res.timeout)) &&
      g.internal == f.internal
  {
  }

  lemma {:induction false} MembershipsOf<T>(v: Views<T>, e: T)
    requires e in v
    ensures Memberships(v) == Bits(v[e]) + Memberships(v - {e})
    decreases |v.Keys|
  {
    var d := Some(v);
    if d != e {
      assert (v - {d}).Keys == v.Keys - {d} && (v - {e}).Keys == v.Keys - {e};
      MembershipsOf(v - {d}, e);
      MembershipsOf(v - {e}, d);
      assert v - {d} - {e} == v - {e} - {d};
    }
  }

  lemma {:induction false} MembershipsWith<T>(v: Views<T>, e: T, w: View)
    ensures Memberships(v[e := w]) == Memberships(v) + Bits(w) - if e in v then Bits(v[e]) else 0
  {
    MembershipsOf(v[e := w], e);
    if e in v {
      MembershipsOf(v, e);
      assert v[e := w] - {e} == v - {e};
    } else {
      assert v[e := w] - {e} == v;
    }
  }

  lemma {:induction false} InsertedMore<T>(v: Views<T>, q: seq<T>, e: T)
    requires InsertedAgree(v, q) && e in v && !v[e].flags.inserted
    ensures InsertedAgree(Flagged(v, e, Inserted, true), q + [e])
  {
  }

  lemma {:induction false} InsertedLess<T>(v: Views<T>, q: seq<T>, e: T)
    requires InsertedAgree(v, q) && e in v
    ensures InsertedAgree(Flagged(v, e, Inserted, false), Excluding(q, {e}))
  {
    ExcludingMembers(q, {e});
    ExcludingDistinct(q, {e});
    var r, w := Excluding(q, {e}), Flagged(v, e, Inserted, false);
    assert forall x :: x in r ==> x in q;
    assert forall x :: x in q ==> x in v;
    assert forall x :: x in v ==> x in w;
    assert forall x :: x in w ==> (x in r <==> x in q && x != e);
  }

  lemma {:induction false} ActiveMore<T>(v: Views<T>, qs: seq<seq<T>>, e: T)
    requires ActiveAgree(v, qs) && e in v && !v[e].flags.active
    ensures ActiveAgree(Flagged(v, e, Active, true), qs[v[e].pri := qs[v[e].pri] + [e]])
    ensures TotalLength(qs[v[e].pri := qs[v[e].pri] + [e]]) == TotalLength(qs) + 1
  {
    TotalLengthUpdate(qs, v[e].pri, qs[v[e].pri] + [e]);
    assert e !in qs[v[e].pri];
  }

  lemma {:induction false} ActiveLess<T>(v: Views<T>, qs: seq<seq<T>>, e: T)
    requires ActiveAgree(v, qs) && e in v && v[e].flags.active
    ensures ActiveAgree(Flagged(v, e, Active, false), qs[v[e].pri := Excluding(qs[v[e].pri], {e})])
    ensures TotalLength(qs[v[e].pri := Excluding(qs[v[e].pri], {e})]) == TotalLength(qs) - 1
  {
    var q := qs[v[e].pri];
    ExcludingMembers(q, {e});
    ExcludingDistinct(q, {e});
    ExcludingOne(q, e);
    TotalLengthUpdate(qs, v[e].pri, Excluding(q, {e}));
    var r, w := Excluding(q, {e}), Flagged(v, e, Active, false);
    assert forall x :: x in r ==> x in q;
    assert forall x :: x in q ==> x in v;
    assert forall x :: x in v ==> x in w;
    assert forall x :: x in w ==> (x in r <==> x in q && x != e);
  }

  // Everything the flags, the queues and the counters say of each other.
  ghost predicate Agree<T>(v: Views<T>, q: seq<T>, qs: seq<seq<T>>, timed: set<T>, count: int, active: int) {
    InsertedAgree(v, q) && ActiveAgree(v, qs) && TimedAgree(v, timed) &&
    count == Memberships(v) && active == TotalLength(qs)
  }

  // An event joins or leaves one queue: its flag, the queue and the counts move together.
  lemma {:induction false} JoinInserted<T>(v: Views<T>, q: seq<T>, qs: seq<seq<T>>, timed: set<T>, count: int,
      active: int, e: T)
    requires Agree(v, q, qs, timed, count, active) && e in v && !v[e].flags.inserted
    ensures Agree(Flagged(v, e, Inserted, true), q + [e], qs, timed, count + Weight(v[e]), active)
  {
    MembershipsWith(v, e, Flagged(v, e, Inserted, true)[e]);
    InsertedMore(v, q, e);
  }

  lemma {:induction false} JoinActive<T>(v: Views<T>, q: seq<T>, qs: seq<seq<T>>, timed: set<T>, count: int,
      active: int, e: T)
    requires Agree(v, q, qs, timed, count, active) && e in v && !v[e].flags.active
    ensures Agree(Flagged(v, e, Active, true), q, qs[v[e].pri := qs[v[e].pri] + [e]], timed, count + Weight(v[e]),
      active + 1)
  {
    MembershipsWith(v, e, Flagged(v, e, Active, true)[e]);
    ActiveMore(v, qs, e);
  }

  lemma {:induction false} JoinTimeout<T>(v: Views<T>, q: seq<T>, qs: seq<seq<T>>, timed: set<T>, count: int,
      active: int, e: T)
    requires Agree(v, q, qs, timed, count, active) && e in v && !v[e].flags.timeout
    ensures Agree(Flagged(v, e, Timeout, true), q, qs, timed + {e}, count + Weight(v[e]), active)
  {
    MembershipsWith(v, e, Flagged(v, e, Timeout, true)[e]);
  }

  lemma {:induction false} LeaveInserted<T>(v: Views<T>, q: seq<T>, qs: seq<seq<T>>, timed: set<T>, count: int,
      active: int, e: T)
    requires Agree(v, q, qs, timed, count, active) && e in v && v[e].flags.inserted
    ensures Agree(Flagged(v, e, Inserted, false), Excluding(q, {e}), qs, timed, count - Weight(v[e]), active)
  {
    MembershipsWith(v, e, Flagged(v, e, Inserted, false)[e]);
    InsertedLess(v, q, e);
  }

  lemma {:induction false} LeaveActive<T>(v: Views<T>, q: seq<T>, qs: seq<seq<T>>, timed: set<T>, count: int,
      active: int, e: T)
    requires Agree(v, q, qs, timed, count, active) && e in v && v[e].flags.active
    ensures Agree(Flagged(v, e, Active, false), q, qs[v[e].pri := Excluding(qs[v[e].pri], {e})], timed,
      count - Weight(v[e]), active - 1)
  {
    MembershipsWith(v, e, Flagged(v, e, Active, false)[e]);
    ActiveLess(v, qs, e);
  }

  lemma {:induction false} LeaveTimeout<T>(v: Views<T>, q: seq<T>, qs: seq<seq<T>>, timed: set<T>, count: int,
      active: int, e: T)
    requires Agree(v, q, qs, timed, count, active) && e in v && v[e].flags.timeout
    ensures Agree(Flagged(v, e, Timeout, false), q, qs, timed - {e}, count - Weight(v[e]), active)
  {
    MembershipsWith(v, e, Flagged(v, e, Timeout, false)[e]);
  }

  lemma {:induction false} Newcomer<T>(v: Views<T>, q: seq<T>, qs: seq<seq<T>>, timed: set<T>, count: int,
      active: int, e: T, w: View)
    requires Agree(v, q, qs, timed, count, active) && e !in v
    requires w.flags == Flags(false, false, false, w.flags.internal) && 0 <= w.pri < |qs|
    ensures Agree(v[e := w], q, qs, timed, count, active)
  {
    MembershipsWith(v, e, w);
  }

  lemma {:induction false} Reprioritised<T>(v: Views<T>, q: seq<T>, qs: seq<seq<T>>, timed: set<T>, count: int,
      active: int, e: T, pri: int)
    requires Agree(v, q, qs, timed, count, active) && e in v && !v[e].flags.active && 0 <= pri < |qs|
    ensures Agree(v[e := v[e].(pri := pri)], q, qs, timed, count, active)
  {
    MembershipsWith(v, e, v[e].(pri := pri));
  }

  // ---------------------------------------------------------------- the expiry of timers

  // On the active queue only.
  ghost function Fired(w: View): View {
    w.(flags := Flags(false, false, true, w.flags.internal))
  }

  lemma {:induction false} FiredBySteps<T>(v: Views<T>, e: T)
    requires e in v
    ensures Flagged(Idle(v, e), e, Active, true) == v[e := Fired(v[e])]
  {
  }

  lemma {:induction false} MovedToEnd<T>(qs: seq<seq<T>>, k: int, q: seq<T>, e: T)
    requires 0 <= k < |qs|
    ensures qs[k := q][k := qs[k := q][k] + [e]] == qs[k := q + [e]]
  {
  }

  ghost function Members<T>(s: seq<T>): set<T> {
    set e | e in s
  }

  ghost function Elsewhere<T>(v: Views<T>, k: int): set<T> {
    set e | e in v && v[e].pri != k
  }

  // The events of the order that have priority k.
  ghost function OfPriority<T>(order: seq<T>, v: Views<T>, k: int): seq<T> {
    Excluding(order, Elsewhere(v, k))
  }

  // How the queues and flags stand once the events of order, in this order, have
  // left every queue and been put at the end of the active queue of their priority.
  ghost predicate FiredInOrder<T>(v0: Views<T>, q0: seq<T>, qs0: seq<seq<T>>, order: seq<T>, v: Views<T>, q: seq<T>,
      qs: seq<seq<T>>) {
    Distinct(order) &&
    v.Keys == v0.Keys && (forall e {:trigger v[e]} :: e in v0 ==> v[e] == if e in order then Fired(v0[e]) else v0[e]) &&
    q == Excluding(q0, Members(order)) &&
    |qs| == |qs0| && (forall k {:trigger qs[k]} :: 0 <= k < |qs| ==>
      qs[k] == Excluding(qs0[k], Members(order)) + OfPriority(order, v0, k))
  }

  lemma {:induction false} FiredNone<T>(v: Views<T>, q: seq<T>, qs: seq<seq<T>>)
    ensures FiredInOrder(v, q, qs, [], v, q, qs)
  {
    assert Members<T>([]) == {};
    ExcludingNone(q, {});
    forall k | 0 <= k < |qs|
      ensures qs[k] == Excluding(qs[k], {}) + OfPriority([], v, k)
    {
      ExcludingNone(qs[k], {});
    }
  }

  lemma {:induction false} FiredOneMore<T>(v0: Views<T>, q0: seq<T>, qs0: seq<seq<T>>, order: seq<T>, v: Views<T>,
      q: seq<T>, qs: seq<seq<T>>, e: T)
    requires FiredInOrder(v0, q0, qs0, order, v, q, qs) && ActiveAgree(v0, qs0) && e in v0 && e !in order
    ensures var k := v0[e].pri;
            FiredInOrder(v0, q0, qs0, order + [e], v[e := Fired(v[e])], Excluding(q, {e}),
              qs[k := Excluding(qs[k], {e}) + [e]])
  {
    var pri := v0[e].pri;
    var gone, order' := Members(order), order + [e];
    assert Members(order') == gone + {e};
    ExcludingTwice(q0, gone, {e});
    var qs' := qs[pri := Excluding(qs[pri], {e}) + [e]];
    forall k | 0 <= k < |qs|
      ensures qs'[k] == Excluding(qs0[k], Members(order')) + OfPriority(order', v0, k)
    {
      FiredQueue(v0, qs0, order, qs[k], k, e);
    }
  }

  lemma {:induction false} FiredQueue<T>(v0: Views<T>, qs0: seq<seq<T>>, order: seq<T>, q: seq<T>, k: nat, e: T)
    requires ActiveAgree(v0, qs0) && k < |qs0| && e in v0 && e !in order
    requires q == Excluding(qs0[k], Members(order)) + OfPriority(order, v0, k)
    ensures (if v0[e].pri == k then Excluding(q, {e}) + [e] else q)
            == Excluding(qs0[k], Members(order + [e])) + OfPriority(order + [e], v0, k)
  {
    var gone, away := Members(order), Elsewhere(v0, k);
    assert Members(order + [e]) == gone + {e};
    ExcludingConcat(order, [e], away);
    ExcludingTwice(qs0[k], gone, {e});
    assert Excluding([e], away) == if v0[e].pri == k then [e] else [];
    if v0[e].pri == k {
      ExcludingMembers(order, away);
      ExcludingNone(Excluding(order, away), {e});
      ExcludingConcat(Excluding(qs0[k], gone), Excluding(order, away), {e});
    } else {
      NotThere(qs0[k], gone, e);
    }
  }

  lemma {:induction false} NotThere<T>(q: seq<T>, gone: set<T>, e: T)
    requires e !in q
    ensures Excluding(Excluding(q, gone), {e}) == Excluding(q, gone)
  {
    ExcludingMembers(q, gone);
    ExcludingNone(Excluding(q, gone), {e});
  }

  datatype Snapshot = Snapshot(views: Views<Event>, eventqueue: seq<Event>, activequeues: seq<seq<Event>>,
    timed: set<Event>, due: map<Event, Timeval>)

  // Fired in order of deadline, none before its time and none after one still to come.
  ghost predicate Sorted<T>(due: map<T, Timeval>, order: seq<T>, rest: set<T>, now: Timeval)
    requires Members(order) <= due.Keys && rest <= due.Keys
  {
    (forall i, j {:trigger order[i], order[j]} :: 0 <= i < j < |order| ==> !Later(due[order[i]], due[order[j]])) &&
    (forall i, x {:trigger order[i], due[x]} :: 0 <= i < |order| && x in rest ==> !Later(due[order[i]], due[x])) &&
    (forall i {:trigger order[i]} :: 0 <= i < |order| ==> !Later(due[order[i]], now))
  }

  lemma {:induction false} SortedOneMore<T>(due: map<T, Timeval>, order: seq<T>, rest: set<T>, now: Timeval, e: T)
    requires Members(order) <= due.Keys && rest <= due.Keys && Sorted(due, order, rest, now)
    requires e in rest && !Later(due[e], now)
    requires forall x :: x in rest ==> !Later(due[e], due[x])
    ensures Members(order + [e]) == Members(order) + {e} && Sorted(due, order + [e], rest - {e}, now)
  {
  }

  // How far timeout_process has come, having fired the events of order.
  ghost predicate Reached(was: Snapshot, order: seq<Event>, now: Timeval, timed: set<Event>, v: Views<Event>,
      q: seq<Event>, qs: seq<seq<Event>>) {
    ActiveAgree(was.views, was.activequeues) && was.timed <= was.views.Keys == was.due.Keys &&
    timed == was.timed - Members(order) && Members(order) <= was.timed &&
    Sorted(was.due, order, timed, now) &&
    FiredInOrder(was.views, was.eventqueue, was.activequeues, order, v, q, qs)
  }

  lemma {:induction false} ReachedNone(was: Snapshot, now: Timeval)
    requires ActiveAgree(was.views, was.activequeues) && was.timed <= was.views.Keys == was.due.Keys
    ensures Reached(was, [], now, was.timed, was.views, was.eventqueue, was.activequeues)
  {
    FiredNone(was.views, was.eventqueue, was.activequeues);
  }

  lemma {:induction false} ReachedOneMore(was: Snapshot, order: seq<Event>, now: Timeval, timed: set<Event>,
      v: Views<Event>, q: seq<Event>, qs: seq<seq<Event>>, e: Event)
    requires Reached(was, order, now, timed, v, q, qs) && e in timed && !Later(was.due[e], now)
    requires forall x :: x in timed ==> !Later(was.due[e], was.due[x])
    ensures var k := was.views[e].pri;
            e in v && v[e].pri == k && 0 <= k < |qs| &&
            Reached(was, order + [e], now, timed - {e}, v[e := Fired(v[e])], Excluding(q, {e}),
              qs[k := Excluding(qs[k], {e}) + [e]])
  {
    FiredOneMore(was.views, was.eventqueue, was.activequeues, order, v, q, qs, e);
    SortedOneMore(was.due, order, timed, now, e);
  }

  // Once the first timer of the heap is in the future, what has fired is what was due.
  lemma {:induction false} ReachedAll(was: Snapshot, order: seq<Event>, now: Timeval, timed: set<Event>,
      v: Views<Event>, q: seq<Event>, qs: seq<seq<Event>>)
    requires Reached(was, order, now, timed, v, q, qs) && forall x :: x in timed ==> Later(was.due[x], now)
    ensures timed == set e | e in was.timed && Later(was.due[e], now)
    ensures Members(order) == set e | e in was.timed && !Later(was.due[e], now)
  {
    assert forall e :: e in Members(order) ==> exists i :: 0 <= i < |order| && order[i] == e;
  }

  // How the flags stand then.
  lemma {:induction false} ReachedFlags(was: Snapshot, order: seq<Event>, now: Timeval, timed: set<Event>,
      v: Views<Event>, q: seq<Event>, qs: seq<seq<Event>>)
    requires Reached(was, order, now, timed, v, q, qs)
    ensures v.Keys == was.views.Keys
    ensures forall e {:trigger v[e]} :: e in v ==>
      v[e].pri == was.views[e].pri &&
      v[e].flags == if e in order then Flags(false, false, true, was.views[e].flags.internal) else was.views[e].flags
    ensures forall e :: e in order ==> e in was.timed
    ensures forall i, j {:trigger order[i], order[j]} :: 0 <= i < j < |order| ==>
      !Later(was.due[order[i]], was.due[order[j]])
  {
    assert forall e :: e in order ==> e in Members(order);
  }

  // And the queues.
  lemma {:induction false} ReachedQueues(was: Snapshot, order: seq<Event>, now: Timeval, timed: set<Event>,
      v: Views<Event>, q: seq<Event>, qs: seq<seq<Event>>)
    requires Reached(was, order, now, timed, v, q, qs)
    ensures q == Excluding(was.eventqueue, set e | e in order) && |qs| == |was.activequeues|
    ensures forall k {:trigger qs[k]} :: 0 <= k < |qs| ==>
      qs[k] ==
      Excluding(was.activequeues[k], set e | e in order) +
      Excluding(order, set e | e in was.views && was.views[e].pri != k)
  {
    assert Members(order) == set e | e in order;
  }

  // ---------------------------------------------------------------- the dispatch of events

  // The flags when the first n events of q have been served, of which those of keep are persistent.
  ghost predicate Spent<T>(v0: Views<T>, v: Views<T>, q: seq<T>, n: int, keep: set<T>) {
    // A let expression keeps the verifier from splitting this into parts.
    var spent := 0 <= n <= |q| && v.Keys == v0.Keys && Members(q) <= v.Keys &&
                 forall e {:trigger v[e]} :: e in v ==>
                   v[e] == if e in q[..n] then Served(v0[e], e in keep) else v0[e];
    spent
  }

  lemma {:induction false} SpentMore<T>(v0: Views<T>, v: Views<T>, v': Views<T>, q: seq<T>, n: int, keep: set<T>)
    requires Spent(v0, v, q, n, keep) && n < |q| && Distinct(q) && HasServed(v, v', q[n], q[n] in keep)
    ensures Spent(v0, v', q, n + 1, keep)
  {
    assert q[..n + 1] == q[..n] + [q[n]];
  }

  ghost function Persistent(all: set<Event>): set<Event> {
    set e | e in all && e.events.persist
  }

  // When all have been served.
  lemma {:induction false} SpentAll<T>(v0: Views<T>, v: Views<T>, q: seq<T>, keep: set<T>)
    requires Spent(v0, v, q, |q|, keep)
    ensures v.Keys == v0.Keys
    ensures forall e {:trigger v[e]} :: e in v ==>
      v[e].flags ==
      if e !in q then v0[e].flags
      else if e in keep then v0[e].flags.(active := false)
      else Flags(false, false, false, v0[e].flags.internal)
  {
    assert q[..|q|] == q;
  }

  // ---------------------------------------------------------------- runs

  // The calls a program can make on the events of a base.
  datatype Op =
    | Add(ev: Event, tv: Option<Timeval>, now: Timeval, memory: bool, accepted: bool)
    | Del(ev: Event, removed: bool)
    | Activate(ev: Event, res: What, ncalls: nat)
    | Prioritise(ev: Event, pri: int)
    | Break

  // What can happen to a base: a call from the program, the expiry of timers, a look at a
  // clock that may have run back, or the dispatch of active events, whose callbacks do what
  // the script says.
  datatype Step = Request(op: Op) | Expire(now: Timeval) | Correct(now: Timeval) | Dispatch(script: seq<seq<Op>>)

  // A timeout is given as a normalised time.
  predicate Timely(op: Op) {
    op.Add? && op.tv.Some? ==> Normal(op.now) && Normal(op.tv.value)
  }

  predicate AllTimely(script: seq<seq<Op>>) {
    forall i, j :: 0 <= i < |script| && 0 <= j < |script[i]| ==> Timely(script[i][j])
  }

  predicate InTime(step: Step) {
    match step
    case Request(op) => Timely(op)
    case Expire(now) => true
    case Correct(now) => Normal(now)
    case Dispatch(script) => AllTimely(script)
  }

  function Repeated<T>(e: T, n: nat): (q: seq<T>)
    ensures |q| == n && forall i :: 0 <= i < n ==> q[i] == e
  {
    seq(n, _ => e)
  }

  // The events of a queue, each as often as the count beside it says.
  function CallsOf<T>(q: seq<T>, counts: seq<nat>): seq<T>
    requires |q| == |counts|
  {
    if q == [] then [] else Repeated(q[0], counts[0]) + CallsOf(q[1..], counts[1..])
  }

  lemma {:induction false} CallsOfNext<T>(q: seq<T>, counts: seq<nat>, e: T, n: nat)
    requires |q| == |counts|
    ensures CallsOf(q + [e], counts + [n]) == CallsOf(q, counts) + Repeated(e, n)
  {
    if q == [] {
      assert CallsOf(([e])[1..], ([n])[1..]) == [];
      assert q + [e] == [e] && counts + [n] == [n];
    } else {
      assert (q + [e])[1..] == q[1..] + [e] && (counts + [n])[1..] == counts[1..] + [n];
      CallsOfNext(q[1..], counts[1..], e, n);
    }
  }

  // All events of q but the rest have been served, each as often as was due.
  ghost predicate Going<T>(q: seq<T>, due: seq<nat>, rest: seq<T>, before: seq<T>, called: seq<T>) {
    // A let expression keeps the verifier from splitting this into parts.
    var going := |due| == |q| && |rest| <= |q| && rest == q[|q| - |rest|..] &&
                 called == before + CallsOf(q[..|q| - |rest|], due[..|q| - |rest|]);
    going
  }

  lemma {:induction false} GoingOn<T>(q: seq<T>, due: seq<nat>, rest: seq<T>, before: seq<T>, called: seq<T>, n: nat)
    requires Going(q, due, rest, before, called) && rest != [] && n == due[|q| - |rest|]
    ensures Going(q, due, rest[1..], before, called + Repeated(rest[0], n))
  {
    var i := |q| - |rest|;
    CallsOfNext(q[..i], due[..i], rest[0], n);
    assert q[..i + 1] == q[..i] + [rest[0]] && due[..i + 1] == due[..i] + [n];
  }

  lemma {:induction false} GoingDone<T>(q: seq<T>, due: seq<nat>, before: seq<T>, called: seq<T>)
    requires Going(q, due, [], before, called)
    ensures called == before + CallsOf(q, due)
  {
    assert q[..|q|] == q && due[..|q|] == due;
  }

  // ---------------------------------------------------------------- the base

  class EventBase {
    var eventqueue: seq<Event>
    var activequeues: seq<seq<Event>>
    const timeheap: Heap
    var eventCount: int
    var eventCountActive: int
    var eventBreak: bool
    var eventTv: Timeval
    var loop: Loop
    var exited: bool         // event_errx has ended the program
    ghost var all: set<Event>      // the events of this base
    ghost var views: Views<Event>  // their flags and priorities
    ghost var called: seq<Event>   // whose callbacks have been called, in order

    ghost predicate Mirrors()
      reads this`views, this`all, all`flags, all`pri
    {
      views.Keys == all &&
      forall e {:trigger views[e]} {:trigger e.flags} {:trigger e.pri} ::
        e in all ==> e.flags == views[e].flags && e.pri == views[e].pri
    }

    // Events outside the heap know that they are.
    ghost predicate Outside()
      reads this`all, all`heapIdx, timeheap`contents
    {
      forall e {:trigger e.heapIdx} :: e in all && e !in timeheap.contents ==> e.heapIdx == -1
    }

    // The flags, the queues and the counters agree.
    ghost predicate Tallied()
      reads this, timeheap`contents, all`flags, all`pri
    {
      Mirrors() && Agree(views, eventqueue, activequeues, timeheap.contents, eventCount, eventCountActive)
    }

    ghost predicate Valid()
      reads this, timeheap, timeheap.p, all, timeheap.contents`heapIdx, timeheap.contents`deadline
    {
      // A let expression keeps the verifier from splitting the invariant into parts.
      var sound := !exited && Tallied() && Timed();
      sound
    }

    // event_base_new followed by event_base_priority_init
    constructor (priorities: nat)
      requires priorities > 0
      ensures Valid() && all == {} && |activequeues| == priorities && fresh(timeheap) && fresh(timeheap.p)
      ensures !eventBreak && loop == Loop(0, 0, 0, false) && called == []
      ensures forall k :: 0 <= k < priorities ==> activequeues[k] == []
    {
      eventqueue := [];
      activequeues := seq(priorities, i => []);
      timeheap := new Heap();
      eventCount := 0;
      eventCountActive := 0;
      eventBreak := false;
      eventTv := Timeval(0, 0);
      loop := Loop(0, 0, 0, false);
      called := [];
      exited := false;
      views := map[];
      all := {};
      new;
      EmptyQueues(activequeues);
    }

    method SetFlag(ev: Event, queue: Queue, b: bool)
      modifies ev`flags
      ensures ev.flags == Set(old(ev.flags), queue, b)
      ensures Timed() == old(Timed())
    {
      ev.flags := Set(ev.flags, queue, b);
    }

    // The common part of event_queue_insert: the count and the flag.
    method Mark(ev: Event, queue: Queue)
      requires Mirrors() && ev in all
      modifies this`eventCount, this`views, ev`flags
      ensures Mirrors() && eventCount == old(eventCount) + Weight(old(views[ev]))
      ensures views == Flagged(old(views), ev, queue, true)
      ensures Timed() == old(Timed())
    {
      if !ev.flags.internal {
        eventCount := eventCount + 1;
      }
      SetFlag(ev, queue, true);
      views := Flagged(views, ev, queue, true);
    }

    // The common part of event_queue_remove.
    method Unmark(ev: Event, queue: Queue)
      requires Mirrors() && ev in all
      modifies this`eventCount, this`views, ev`flags
      ensures Mirrors() && eventCount == old(eventCount) - Weight(old(views[ev]))
      ensures views == Flagged(old(views), ev, queue, false)
      ensures Timed() == old(Timed())
    {
      if !ev.flags.internal {
        eventCount := eventCount - 1;
      }
      SetFlag(ev, queue, false);
      views := Flagged(views, ev, queue, false);
    }

    method InsertInserted(ev: Event)
      requires Tallied() && ev in all && !exited
      modifies this`exited, this`eventqueue, this`eventCount, this`views, ev`flags
      ensures exited <==> old(ev.flags.inserted)
      ensures !exited ==> Tallied() && views == Flagged(old(views), ev, Inserted, true)
      ensures !exited ==> eventqueue == old(eventqueue) + [ev]
      ensures Timed() == old(Timed())
    {
      if ev.flags.inserted {
        exited := true;
        return;
      }
      JoinInserted(views, eventqueue, activequeues, timeheap.contents, eventCount, eventCountActive, ev);
      Mark(ev, Inserted);
      eventqueue := eventqueue + [ev];
    }

    method InsertActive(ev: Event)
      requires Tallied() && ev in all && !exited
      modifies this`activequeues, this`eventCount, this`eventCountActive, this`views, ev`flags
      ensures Tallied() && !exited && views == Flagged(old(views), ev, Active, true)
      ensures activequeues ==
        if old(ev.flags.active) then old(activequeues)
        else old(activequeues)[ev.pri := old(activequeues)[ev.pri] + [ev]]
      ensures Timed() == old(Timed())
    {
      if ev.flags.active {
        assert views == Flagged(views, ev, Active, true);
        return;
      }
      AppendActive(ev);
    }

    method AppendActive(ev: Event)
      requires Tallied() && ev in all && !ev.flags.active
      modifies this`activequeues, this`eventCount, this`eventCountActive, this`views, ev`flags
      ensures Tallied() && views == Flagged(old(views), ev, Active, true)
      ensures activequeues == old(activequeues)[ev.pri := old(activequeues)[ev.pri] + [ev]]
      ensures Timed() == old(Timed())
    {
      JoinActive(views, eventqueue, activequeues, timeheap.contents, eventCount, eventCountActive, ev);
      Mark(ev, Active);
      Requeue(1, activequeues[ev.pri := activequeues[ev.pri] + [ev]]);
    }

    method Requeue(more: int, qs: seq<seq<Event>>)
      requires Mirrors()
      modifies this`activequeues, this`eventCountActive
      ensures activequeues == qs && eventCountActive == old(eventCountActive) + more
      ensures Mirrors() && Timed() == old(Timed())
    {
      eventCountActive := eventCountActive + more;
      activequeues := qs;
    }

    // The heap and the events outside it.
    ghost predicate Timed()
      reads this`all, all`heapIdx, timeheap, timeheap.p, timeheap.contents`heapIdx, timeheap.contents`deadline
    {
      timeheap.Valid() && Outside()
    }

    method PushTimer(ev: Event)
      requires Timed() && ev in all && ev !in timeheap.contents && timeheap.n < timeheap.p.Length
      modifies ev`heapIdx, timeheap`p, timeheap`n, timeheap`contents, timeheap.p, timeheap.contents`heapIdx
      ensures Timed() && timeheap.p == old(timeheap.p) && timeheap.contents == old(timeheap.contents) + {ev}
    {
      var ok := timeheap.Push(ev, false);
    }

    method EraseTimer(ev: Event)
      requires Timed() && ev in timeheap.contents
      modifies timeheap`p, timeheap`n, timeheap`contents, timeheap.p, timeheap.contents`heapIdx
      ensures Timed() && timeheap.p == old(timeheap.p) && timeheap.contents == old(timeheap.contents) - {ev}
      ensures timeheap.n < timeheap.p.Length
    {
      var ok := timeheap.Erase(ev);
    }

    method InsertTimeout(ev: Event)
      requires Tallied() && Timed() && ev in all && !exited && timeheap.n < timeheap.p.Length
      modifies this`exited, this`eventCount, this`views, ev`flags, ev`heapIdx, timeheap`p, timeheap`n,
        timeheap`contents, timeheap.p, timeheap.contents`heapIdx
      ensures exited <==> old(ev.flags.timeout)
      ensures !exited ==>
        Tallied() && Timed() && views == Flagged(old(views), ev, Timeout, true) &&
        timeheap.p == old(timeheap.p)
      ensures !exited ==> timeheap.contents == old(timeheap.contents) + {ev}
    {
      if ev.flags.timeout {
        exited := true;
        return;
      }
      JoinTimeout(views, eventqueue, activequeues, timeheap.contents, eventCount, eventCountActive, ev);
      PushTimer(ev);
      Mark(ev, Timeout);
    }

    method RemoveInserted(ev: Event)
      requires Tallied() && ev in all && !exited
      modifies this`exited, this`eventqueue, this`eventCount, this`views, ev`flags
      ensures exited <==> !old(ev.flags.inserted)
      ensures !exited ==> Tallied() && views == Flagged(old(views), ev, Inserted, false)
      ensures !exited ==> eventqueue == Excluding(old(eventqueue), {ev})
      ensures Timed() == old(Timed())
    {
      if !ev.flags.inserted {
        exited := true;
        return;
      }
      LeaveInserted(views, eventqueue, activequeues, timeheap.contents, eventCount, eventCountActive, ev);
      Unmark(ev, Inserted);
      eventqueue := Excluding(eventqueue, {ev});
    }

    method RemoveActive(ev: Event)
      requires Tallied() && ev in all && !exited
      modifies this`exited, this`activequeues, this`eventCount, this`eventCountActive, this`views, ev`flags
      ensures exited <==> !old(ev.flags.active)
      ensures !exited ==> Tallied() && views == Flagged(old(views), ev, Active, false)
      ensures !exited ==> activequeues == old(activequeues)[ev.pri := Excluding(old(activequeues)[ev.pri], {ev})]
      ensures Timed() == old(Timed())
    {
      if !ev.flags.active {
        exited := true;
        return;
      }
      UnlinkActive(ev);
    }

    method UnlinkActive(ev: Event)
      requires Tallied() && ev in all && ev.flags.active
      modifies this`activequeues, this`eventCount, this`eventCountActive, this`views, ev`flags
      ensures Tallied() && views == Flagged(old(views), ev, Active, false)
      ensures activequeues == old(activequeues)[ev.pri := Excluding(old(activequeues)[ev.pri], {ev})]
      ensures Timed() == old(Timed())
    {
      LeaveActive(views, eventqueue, activequeues, timeheap.contents, eventCount, eventCountActive, ev);
      Unmark(ev, Active);
      Requeue(-1, activequeues[ev.pri := Excluding(activequeues[ev.pri], {ev})]);
    }

    method RemoveTimeout(ev: Event)
      requires Tallied() && Timed() && ev in all && !exited
      modifies this`exited, this`eventCount, this`views, ev`flags, timeheap`p, timeheap`n, timeheap`contents,
        timeheap.p, timeheap.contents`heapIdx
      ensures exited <==> !old(ev.flags.timeout)
      ensures !exited ==>
        Tallied() && Timed() && views == Flagged(old(views), ev, Timeout, false) &&
        timeheap.p == old(timeheap.p)
      ensures !exited ==> timeheap.contents == old(timeheap.contents) - {ev}
      ensures !exited ==> timeheap.n < timeheap.p.Length
    {
      if !ev.flags.timeout {
        exited := true;
        return;
      }
      LeaveTimeout(views, eventqueue, activequeues, timeheap.contents, eventCount, eventCountActive, ev);
      EraseTimer(ev);
      Unmark(ev, Timeout);
    }

    // Each queue is left if the event is on it.

    method DropTimeout(ev: Event)
      requires Valid() && ev in all
      modifies this`exited, this`eventCount, this`views, ev`flags, timeheap`p, timeheap`n, timeheap`contents,
        timeheap.p, timeheap.contents`heapIdx
      ensures Valid() && views == Flagged(old(views), ev, Timeout, false) && timeheap.p == old(timeheap.p)
      ensures timeheap.contents == old(timeheap.contents) - {ev}
      ensures old(ev.flags.timeout) ==> timeheap.n < timeheap.p.Length
      ensures !old(ev.flags.timeout) ==> timeheap.n == old(timeheap.n)
    {
      if ev.flags.timeout {
        RemoveTimeout(ev);
      } else {
        assert views == Flagged(views, ev, Timeout, false);
      }
    }

    method DropActive(ev: Event)
      requires Tallied() && !exited && ev in all
      modifies this`exited, this`activequeues, this`eventCount, this`eventCountActive, this`views, ev`flags
      ensures Tallied() && !exited && views == Flagged(old(views), ev, Active, false)
      ensures activequeues == old(activequeues)[ev.pri := Excluding(old(activequeues)[ev.pri], {ev})]
      ensures Timed() == old(Timed())
    {
      if ev.flags.active {
        RemoveActive(ev);
      } else {
        assert views == Flagged(views, ev, Active, false);
        ExcludingNone(activequeues[ev.pri], {ev});
      }
    }

    method DropInserted(ev: Event)
      requires Tallied() && !exited && ev in all
      modifies this`exited, this`eventqueue, this`eventCount, this`views, ev`flags
      ensures Tallied() && !exited && views == Flagged(old(views), ev, Inserted, false)
      ensures eventqueue == Excluding(old(eventqueue), {ev})
      ensures Timed() == old(Timed())
    {
      if ev.flags.inserted {
        RemoveInserted(ev);
      } else {
        assert views == Flagged(views, ev, Inserted, false);
        ExcludingNone(eventqueue, {ev});
      }
    }

    // The dispatcher running this event in a loop is told to stop.
    method AbortLoop(ev: Event)
      modifies this`loop
      ensures loop == Stopped(ev.call, old(loop)) && Onward(old(loop), loop)
      ensures Timed() == old(Timed()) && Tallied() == old(Tallied())
    {
      if ev.call.ncalls > 0 && ev.call.frame > 0 {
        if ev.call.frame == loop.frame {
          loop := loop.(left := 0);
        } else {
          loop := loop.(wild := true);
        }
      }
    }

    method LeaveAll(ev: Event)
      requires Valid() && ev in all
      modifies this`exited, this`eventqueue, this`activequeues, this`eventCount, this`eventCountActive, this`views
      modifies ev`flags, timeheap`p, timeheap`n, timeheap`contents, timeheap.p, timeheap.contents`heapIdx
      ensures Valid() && timeheap.p == old(timeheap.p)
      ensures views == Idle(old(views), ev)
      ensures eventqueue == Excluding(old(eventqueue), {ev})
      ensures activequeues == old(activequeues)[ev.pri := Excluding(old(activequeues)[ev.pri], {ev})]
      ensures timeheap.contents == old(timeheap.contents) - {ev}
    {
      DropTimeout(ev);
      DropActive(ev);
      DropInserted(ev);
      IdleBySteps(old(views), ev);
    }

    // event_del; removed is what the backend answers.
    method EventDel(ev: Event, removed: bool) returns (ok: bool)
      requires Valid() && ev in all
      modifies this`exited, this`eventqueue, this`activequeues, this`eventCount, this`eventCountActive, this`views
      modifies ev`flags, this`loop, timeheap`p, timeheap`n, timeheap`contents, timeheap.p,
        timeheap.contents`heapIdx
      ensures Valid() && timeheap.p == old(timeheap.p)
      ensures ok <==> old(ev.flags.inserted) ==> removed
      ensures views == Idle(old(views), ev)
      ensures eventqueue == Excluding(old(eventqueue), {ev})
      ensures activequeues == old(activequeues)[ev.pri := Excluding(old(activequeues)[ev.pri], {ev})]
      ensures timeheap.contents == old(timeheap.contents) - {ev}
      ensures loop == Stopped(ev.call, old(loop)) && Onward(old(loop), loop)
      ensures ev.flags == Flags(false, false, false, old(ev.flags.internal))
      ensures loop.left ==
        if ev.call.ncalls > 0 && ev.call.frame > 0 && ev.call.frame == old(loop.frame) then 0 else old(loop.left)
      ensures loop.wild <==>
        old(loop.wild) || (ev.call.ncalls > 0 && ev.call.frame > 0 && ev.call.frame != old(loop.frame))
    {
      AbortLoop(ev);
      ok := ev.flags.inserted ==> removed;
      LeaveAll(ev);
      assert ev.flags == views[ev].flags;
    }

    // event_active
    method EventActive(ev: Event, res: What, ncalls: nat)
      requires Valid() && ev in all
      modifies this`activequeues, this`eventCount, this`eventCountActive, this`views
      modifies ev`flags, ev`call
      ensures Valid() && views == Flagged(old(views), ev, Active, true)
      ensures old(ev.flags.active) ==>
        activequeues == old(activequeues) &&
        ev.call == old(ev.call).(res := Or(old(ev.call).res, res))
      ensures !old(ev.flags.active) ==> activequeues == old(activequeues)[ev.pri := old(activequeues)[ev.pri] + [ev]]
      ensures !old(ev.flags.active) ==> ev.call == Call(res, ncalls, 0)
      ensures ev.flags == old(ev.flags).(active := true)
      ensures old(ev.flags.active) ==> ev.call.ncalls == old(ev.call.ncalls) && ev.call.frame == old(ev.call.frame)
      ensures old(ev.flags.active) ==>
        (ev.call.res.timeout <==> old(ev.call.res.timeout) || res.timeout) &&
        (ev.call.res.read <==> old(ev.call.res.read) || res.read) &&
        (ev.call.res.write <==> old(ev.call.res.write) || res.write) &&
        (ev.call.res.signal <==> old(ev.call.res.signal) || res.signal) &&
        (ev.call.res.persist <==> old(ev.call.res.persist) || res.persist)
    {
      assert ev.flags == views[ev].flags;
      if ev.flags.active {
        ev.call := ev.call.(res := Or(ev.call.res, res));
        assert Tallied() == old(Tallied()) && Timed() == old(Timed());
        assert views == Flagged(views, ev, Active, true);
        return;
      }
      Arm(ev, res, ncalls);
      InsertActive(ev);
      assert ev.flags == views[ev].flags;
    }

    method Arm(ev: Event, res: What, ncalls: nat)
      modifies ev`call
      ensures ev.call == Call(res, ncalls, 0)
      ensures Timed() == old(Timed())
    {
      ev.call := Call(res, ncalls, 0);
    }

    // Room in the heap for one event more.
    method Room(memory: bool) returns (ok: bool)
      requires Valid()
      modifies timeheap`p
      ensures Valid() && (timeheap.p == old(timeheap.p) || fresh(timeheap.p))
      ensures ok <==> timeheap.n < old(timeheap.p.Length) || memory
      ensures ok ==> timeheap.n < timeheap.p.Length
    {
      ok := timeheap.Reserve(1 + timeheap.n, memory);
      assert Tallied() == old(Tallied());
    }

    // The part of event_add that makes sure the timeout can be set.
    method Prepare(ev: Event, tv: Option<Timeval>, memory: bool) returns (ok: bool)
      requires Valid() && ev in all
      modifies timeheap`p
      ensures Valid() && (timeheap.p == old(timeheap.p) || fresh(timeheap.p))
      ensures ok <==> (tv.Some? && !ev.flags.timeout ==> timeheap.n < old(timeheap.p.Length) || memory)
      ensures ok && tv.Some? ==> ev.flags.timeout || timeheap.n < timeheap.p.Length
    {
      ok := true;
      if tv.Some? && !ev.flags.timeout {
        ok := Room(memory);
      }
    }

    method SetDeadline(ev: Event, d: Timeval)
      requires Timed() && ev !in timeheap.contents
      modifies ev`deadline
      ensures Timed() && ev.deadline == d
      ensures Tallied() == old(Tallied())
    {
      ev.deadline := d;
    }

    // The part of event_add that asks the backend.
    method Enroll(ev: Event, accepted: bool) returns (ok: bool)
      requires Valid() && ev in all
      modifies this`exited, this`eventqueue, this`eventCount, this`views, ev`flags
      ensures Valid() && (ok <==> WantsBackend(old(ev.flags), ev.events) ==> accepted)
      ensures !ok ==> eventqueue == old(eventqueue) && views == old(views)
      ensures ok ==> eventqueue == old(eventqueue) + if WantsBackend(old(ev.flags), ev.events) then [ev] else []
      ensures ok ==> views == Added(old(views), ev, ev.events, ev.call.res, false)
      ensures ev.flags.active == old(ev.flags.active) && ev.flags.timeout == old(ev.flags.timeout)
    {
      ok := true;
      if (ev.events.read || ev.events.write || ev.events.signal) && !(ev.flags.inserted || ev.flags.active) {
        ok := accepted;
        if ok {
          InsertInserted(ev);
        }
      }
    }

    // The part of event_add that sets the timeout.
    method Reschedule(ev: Event, tv: Timeval, now: Timeval)
      requires Valid() && ev in all
      requires ev.flags.timeout || timeheap.n < timeheap.p.Length
      modifies this`exited, this`activequeues, this`eventCount, this`eventCountActive, this`views
      modifies ev`flags, ev`heapIdx, ev`deadline, timeheap`p, timeheap`n, timeheap`contents, timeheap.p,
        timeheap.contents`heapIdx
      ensures Valid() && timeheap.p == old(timeheap.p)
      ensures timeheap.contents == old(timeheap.contents) + {ev} && ev.deadline == TimerAdd(now, tv)
      ensures views == Retimed(old(views), ev, ev.call.res)
      ensures activequeues == Cancelled(old(activequeues), ev, ev.pri, old(ev.flags.active), ev.call.res)
    {
      DropTimeout(ev);
      assert old(timeheap.contents) - {ev} + {ev} == old(timeheap.contents) + {ev};
      Restart(ev, TimerAdd(now, tv));
      RetimedBySteps(old(views), ev, ev.call.res);
    }

    method Restart(ev: Event, d: Timeval)
      requires Valid() && ev in all && !ev.flags.timeout && timeheap.n < timeheap.p.Length
      modifies this`exited, this`activequeues, this`eventCount, this`eventCountActive, this`views
      modifies ev`flags, ev`heapIdx, ev`deadline, timeheap`p, timeheap`n, timeheap`contents, timeheap.p,
        timeheap.contents`heapIdx
      ensures Valid() && timeheap.p == old(timeheap.p)
      ensures timeheap.contents == old(timeheap.contents) + {ev} && ev.deadline == d
      ensures views == Flagged(Unexpired(old(views), ev, ev.call.res), ev, Timeout, true)
      ensures activequeues == Cancelled(old(activequeues), ev, ev.pri, old(ev.flags.active), ev.call.res)
    {
      ghost var call, pri := ev.call, ev.pri;
      Unexpire(ev);
      Time(ev, d);
      assert ev.call == call && ev.pri == pri;
    }

    method SetTimeout(ev: Event, tv: Timeval, now: Timeval)
      requires Valid() && ev in all
      requires ev.flags.timeout || timeheap.n < timeheap.p.Length
      modifies this`exited, this`activequeues, this`eventCount, this`eventCountActive, this`views
      modifies ev`flags, ev`heapIdx, ev`deadline, this`loop, timeheap`p, timeheap`n, timeheap`contents,
        timeheap.p, timeheap.contents`heapIdx
      ensures Valid() && timeheap.p == old(timeheap.p)
      ensures timeheap.contents == old(timeheap.contents) + {ev} && ev.deadline == TimerAdd(now, tv)
      ensures views == Retimed(old(views), ev, ev.call.res)
      ensures activequeues == Cancelled(old(activequeues), ev, ev.pri, old(ev.flags.active), ev.call.res)
      ensures loop == LeftOf(old(ev.flags.active), ev.call, old(loop))
    {
      if ev.flags.active && ev.call.res.timeout {
        AbortLoop(ev);
      }
      Reschedule(ev, tv, now);
    }

    // An event active because of a timeout leaves the active queue.
    method Unexpire(ev: Event)
      requires Valid() && ev in all
      modifies this`exited, this`activequeues, this`eventCount, this`eventCountActive, this`views, ev`flags
      ensures Valid()
      ensures views == Unexpired(old(views), ev, ev.call.res)
      ensures activequeues == Cancelled(old(activequeues), ev, ev.pri, old(ev.flags.active), ev.call.res)
    {
      if ev.flags.active && ev.call.res.timeout {
        RemoveActive(ev);
      }
    }

    method Time(ev: Event, d: Timeval)
      requires Valid() && ev in all && !ev.flags.timeout && timeheap.n < timeheap.p.Length
      modifies this`exited, this`eventCount, this`views
      modifies ev`flags, ev`heapIdx, ev`deadline, timeheap`p, timeheap`n, timeheap`contents, timeheap.p,
        timeheap.contents`heapIdx
      ensures Valid() && timeheap.p == old(timeheap.p)
      ensures timeheap.contents == old(timeheap.contents) + {ev} && ev.deadline == d
      ensures views == Flagged(old(views), ev, Timeout, true)
    {
      SetDeadline(ev, d);
      InsertTimeout(ev);
    }

    // event_add: memory says whether the heap can grow, accepted what the backend answers.
    method EventAdd(ev: Event, tv: Option<Timeval>, now: Timeval, memory: bool, accepted: bool) returns (ok: bool)
      requires Valid() && ev in all
      modifies this`exited, this`eventqueue, this`activequeues, this`eventCount, this`eventCountActive, this`views
      modifies ev`flags, ev`heapIdx, ev`deadline, this`loop, timeheap`p, timeheap`n, timeheap`contents,
        timeheap.p, timeheap.contents`heapIdx
      ensures Valid() && (timeheap.p == old(timeheap.p) || fresh(timeheap.p))
      ensures ok <==>
        (tv.Some? && !old(ev.flags.timeout) ==> old(timeheap.n) < old(timeheap.p.Length) || memory) &&
        ((ev.events.read || ev.events.write || ev.events.signal) && !old(ev.flags.inserted) && !old(ev.flags.active) ==>
          accepted)
      ensures !ok ==> views == old(views) && eventqueue == old(eventqueue) && activequeues == old(activequeues)
      ensures !ok ==> timeheap.contents == old(timeheap.contents) && ev.deadline == old(ev.deadline)
      ensures ok ==>
        eventqueue == old(eventqueue) +
        if (ev.events.read || ev.events.write || ev.events.signal) && !old(ev.flags.inserted) && !old(ev.flags.active)
        then [ev] else []
      ensures ok ==> views == Added(old(views), ev, ev.events, ev.call.res, tv.Some?)
      ensures ok && tv.Some? ==>
        timeheap.contents == old(timeheap.contents) + {ev} &&
        ev.deadline == TimerAdd(now, tv.value)
      ensures ok && tv.None? ==> timeheap.contents == old(timeheap.contents) && ev.deadline == old(ev.deadline)
      ensures ok ==>
        activequeues ==
        Cancelled(old(activequeues), ev, ev.pri, tv.Some? && old(ev.flags.active), ev.call.res)
      ensures loop == LeftOf(ok && tv.Some? && old(ev.flags.active), ev.call, old(loop))
      ensures ok ==>
        (ev.flags.inserted <==>
          old(ev.flags.inserted) ||
          ((ev.events.read || ev.events.write || ev.events.signal) && !old(ev.flags.active)))
      ensures ok ==> (ev.flags.timeout <==> old(ev.flags.timeout) || tv.Some?)
      ensures ok ==> (ev.flags.active <==> old(ev.flags.active) && !(tv.Some? && ev.call.res.timeout))
      ensures !ok ==> ev.flags == old(ev.flags)
      ensures ok && tv.Some? && old(ev.flags.active) && ev.call.res.timeout ==>
        (ev.call.ncalls > 0 && ev.call.frame > 0 ==>
          if ev.call.frame == old(loop.frame) then loop.left == 0 else loop.wild)
      ensures !(tv.Some? && old(ev.flags.active) && ev.call.res.timeout) ==> loop == old(loop)
    {
      ghost var v := views;
      assert views[ev].flags == ev.flags;
      AddedFlags(v, ev, ev.events, ev.call.res, tv.Some?);
      ok := TryAdd(ev, tv, now, memory, accepted);
      assert ev.flags == views[ev].flags;
    }

    // The two parts of event_add.
    method TryAdd(ev: Event, tv: Option<Timeval>, now: Timeval, memory: bool, accepted: bool) returns (ok: bool)
      requires Valid() && ev in all
      modifies this`exited, this`eventqueue, this`activequeues, this`eventCount, this`eventCountActive, this`views
      modifies ev`flags, ev`heapIdx, ev`deadline, this`loop, timeheap`p, timeheap`n, timeheap`contents,
        timeheap.p, timeheap.contents`heapIdx
      ensures Valid() && (timeheap.p == old(timeheap.p) || fresh(timeheap.p))
      ensures ok <==> (tv.Some? && !old(ev.flags.timeout) ==> old(timeheap.n) < old(timeheap.p.Length) || memory) &&
                      (WantsBackend(old(ev.flags), ev.events) ==> accepted)
      ensures !ok ==> views == old(views) && eventqueue == old(eventqueue) && activequeues == old(activequeues)
      ensures !ok ==> timeheap.contents == old(timeheap.contents) && ev.deadline == old(ev.deadline)
      ensures ok ==> eventqueue == old(eventqueue) + if WantsBackend(old(ev.flags), ev.events) then [ev] else []
      ensures ok ==> views == Added(old(views), ev, ev.events, ev.call.res, tv.Some?)
      ensures ok && tv.Some? ==>
        timeheap.contents == old(timeheap.contents) + {ev} &&
        ev.deadline == TimerAdd(now, tv.value)
      ensures ok && tv.None? ==> timeheap.contents == old(timeheap.contents) && ev.deadline == old(ev.deadline)
      ensures ok ==>
        activequeues ==
        Cancelled(old(activequeues), ev, ev.pri, tv.Some? && old(ev.flags.active), ev.call.res)
      ensures loop == LeftOf(ok && tv.Some? && old(ev.flags.active), ev.call, old(loop))
    {
      ok := Prepare(ev, tv, memory);
      if ok {
        ok := AddPrepared(ev, tv, now, accepted);
      }
    }

    method AddPrepared(ev: Event, tv: Option<Timeval>, now: Timeval, accepted: bool) returns (ok: bool)
      requires Valid() && ev in all
      requires tv.Some? ==> ev.flags.timeout || timeheap.n < timeheap.p.Length
      modifies this`exited, this`eventqueue, this`activequeues, this`eventCount, this`eventCountActive, this`views
      modifies ev`flags, ev`heapIdx, ev`deadline, this`loop, timeheap`p, timeheap`n, timeheap`contents,
        timeheap.p, timeheap.contents`heapIdx
      ensures Valid() && timeheap.p == old(timeheap.p)
      ensures ok <==> (WantsBackend(old(ev.flags), ev.events) ==> accepted)
      ensures !ok ==> views == old(views) && eventqueue == old(eventqueue) && activequeues == old(activequeues)
      ensures !ok ==> timeheap.contents == old(timeheap.contents) && ev.deadline == old(ev.deadline)
      ensures ok ==> eventqueue == old(eventqueue) + if WantsBackend(old(ev.flags), ev.events) then [ev] else []
      ensures ok ==> views == Added(old(views), ev, ev.events, ev.call.res, tv.Some?)
      ensures ok && tv.Some? ==>
        timeheap.contents == old(timeheap.contents) + {ev} &&
        ev.deadline == TimerAdd(now, tv.value)
      ensures ok && tv.None? ==> timeheap.contents == old(timeheap.contents) && ev.deadline == old(ev.deadline)
      ensures ok ==>
        activequeues ==
        Cancelled(old(activequeues), ev, ev.pri, tv.Some? && old(ev.flags.active), ev.call.res)
      ensures loop == LeftOf(ok && tv.Some? && old(ev.flags.active), ev.call, old(loop))
    {
      if tv.Some? {
        ok := AddTimed(ev, tv.value, now, accepted);
      } else {
        ok := Enroll(ev, accepted);
      }
    }

    method AddTimed(ev: Event, tv: Timeval, now: Timeval, accepted: bool) returns (ok: bool)
      requires Valid() && ev in all
      requires ev.flags.timeout || timeheap.n < timeheap.p.Length
      modifies this`exited, this`eventqueue, this`activequeues, this`eventCount, this`eventCountActive, this`views
      modifies ev`flags, ev`heapIdx, ev`deadline, this`loop, timeheap`p, timeheap`n, timeheap`contents,
        timeheap.p, timeheap.contents`heapIdx
      ensures Valid() && timeheap.p == old(timeheap.p)
      ensures ok <==> (WantsBackend(old(ev.flags), ev.events) ==> accepted)
      ensures !ok ==> views == old(views) && eventqueue == old(eventqueue) && activequeues == old(activequeues)
      ensures !ok ==>
        timeheap.contents == old(timeheap.contents) && ev.deadline == old(ev.deadline) &&
        loop == old(loop)
      ensures ok ==> eventqueue == old(eventqueue) + if WantsBackend(old(ev.flags), ev.events) then [ev] else []
      ensures ok ==> views == Added(old(views), ev, ev.events, ev.call.res, true)
      ensures ok ==> timeheap.contents == old(timeheap.contents) + {ev} && ev.deadline == TimerAdd(now, tv)
      ensures ok ==> activequeues == Cancelled(old(activequeues), ev, ev.pri, old(ev.flags.active), ev.call.res)
      ensures ok ==> loop == LeftOf(old(ev.flags.active), ev.call, old(loop))
    {
      ok := WantsBackend(ev.flags, ev.events) ==> accepted;
      if ok {
        AddAccepted(ev, tv, now);
      }
    }

    method AddAccepted(ev: Event, tv: Timeval, now: Timeval)
      requires Valid() && ev in all
      requires ev.flags.timeout || timeheap.n < timeheap.p.Length
      modifies this`exited, this`eventqueue, this`activequeues, this`eventCount, this`eventCountActive, this`views
      modifies ev`flags, ev`heapIdx, ev`deadline, this`loop, timeheap`p, timeheap`n, timeheap`contents,
        timeheap.p, timeheap.contents`heapIdx
      ensures Valid() && timeheap.p == old(timeheap.p)
      ensures eventqueue == old(eventqueue) + if WantsBackend(old(ev.flags), ev.events) then [ev] else []
      ensures views == Added(old(views), ev, ev.events, ev.call.res, true)
      ensures timeheap.contents == old(timeheap.contents) + {ev} && ev.deadline == TimerAdd(now, tv)
      ensures activequeues == Cancelled(old(activequeues), ev, ev.pri, old(ev.flags.active), ev.call.res)
      ensures loop == LeftOf(old(ev.flags.active), ev.call, old(loop))
    {
      var ok := Enroll(ev, true);
      SetTimeout(ev, tv, now);
    }

    ghost function Now(): Snapshot
      reads this, timeheap`contents, all
    {
      Snapshot(views, eventqueue, activequeues, timeheap.contents, map e | e in all :: e.deadline)
    }

    // No deadline has changed.
    ghost predicate Due(was: Snapshot)
      reads this`all, all`deadline
    {
      // A let expression keeps the verifier from splitting the deadlines into parts.
      var due := was.due.Keys == all && forall e :: e in all ==> e.deadline == was.due[e];
      due
    }

    // What is to be passed to the callbacks of the events that have fired.
    ghost predicate Called(order: seq<Event>)
      reads Members(order)`call
    {
      forall i {:trigger order[i]} :: 0 <= i < |order| ==> order[i].call == Call(EV_TIMEOUT, 1, 0)
    }

    ghost predicate Progress(was: Snapshot, order: seq<Event>, now: Timeval)
      reads this, timeheap`contents
    {
      // A let expression keeps the verifier from splitting the state into parts.
      var reached := was.views.Keys == was.due.Keys == all &&
                     Reached(was, order, now, timeheap.contents, views, eventqueue, activequeues);
      reached
    }

    // One turn of timeout_process.
    method Fire(ev: Event)
      requires Valid() && ev in timeheap.contents
      modifies this`exited, this`eventqueue, this`activequeues, this`eventCount, this`eventCountActive, this`views
      modifies ev`flags, ev`call, this`loop, timeheap`p, timeheap`n, timeheap`contents, timeheap.p,
        timeheap.contents`heapIdx
      ensures Valid() && timeheap.p == old(timeheap.p) && Onward(old(loop), loop)
      ensures views == old(views)[ev := Fired(old(views)[ev])]
      ensures eventqueue == Excluding(old(eventqueue), {ev})
      ensures activequeues == old(activequeues)[ev.pri := Excluding(old(activequeues)[ev.pri], {ev}) + [ev]]
      ensures timeheap.contents == old(timeheap.contents) - {ev}
      ensures ev.call == Call(EV_TIMEOUT, 1, 0)
    {
      MovedToEnd(activequeues, ev.pri, Excluding(activequeues[ev.pri], {ev}), ev);
      var ok := EventDel(ev, true);
      assert !ev.flags.active;
      EventActive(ev, EV_TIMEOUT, 1);
      FiredBySteps(old(views), ev);
    }

    method FireCalled(ev: Event, ghost order: seq<Event>)
      requires Valid() && ev in timeheap.contents && Called(order) && ev !in order
      modifies this`exited, this`eventqueue, this`activequeues, this`eventCount, this`eventCountActive, this`views
      modifies ev`flags, ev`call, this`loop, timeheap`p, timeheap`n, timeheap`contents, timeheap.p,
        timeheap.contents`heapIdx
      ensures Valid() && timeheap.p == old(timeheap.p) && Onward(old(loop), loop)
      ensures views == old(views)[ev := Fired(old(views)[ev])]
      ensures eventqueue == Excluding(old(eventqueue), {ev})
      ensures activequeues == old(activequeues)[ev.pri := Excluding(old(activequeues)[ev.pri], {ev}) + [ev]]
      ensures timeheap.contents == old(timeheap.contents) - {ev}
      ensures Called(order + [ev])
    {
      Fire(ev);
      assert forall i {:trigger order[i]} :: 0 <= i < |order| ==>
        order[i] in order && order[i].call == old(order[i].call);
    }

    method FireTimely(ev: Event, ghost order: seq<Event>)
      requires Valid() && ev in timeheap.contents && Called(order) && ev !in order
      modifies this`exited, this`eventqueue, this`activequeues, this`eventCount, this`eventCountActive, this`views
      modifies ev`flags, ev`call, this`loop, timeheap`p, timeheap`n, timeheap`contents, timeheap.p,
        timeheap.contents`heapIdx
      ensures Valid() && timeheap.p == old(timeheap.p) && Onward(old(loop), loop)
      ensures views == old(views)[ev := Fired(old(views)[ev])]
      ensures eventqueue == Excluding(old(eventqueue), {ev})
      ensures activequeues == old(activequeues)[ev.pri := Excluding(old(activequeues)[ev.pri], {ev}) + [ev]]
      ensures timeheap.contents == old(timeheap.contents) - {ev}
      ensures Called(order + [ev])
      ensures forall e :: e in all ==> e.deadline == old(e.deadline)
    {
      FireCalled(ev, order);
    }

    method FireNext(ev: Event, ghost was: Snapshot, ghost order: seq<Event>, now: Timeval)
      requires Valid() && Progress(was, order, now) && ev in timeheap.contents && !Later(was.due[ev], now)
      requires forall x :: x in timeheap.contents ==> !Later(was.due[ev], was.due[x])
      requires Called(order)
      modifies this`exited, this`eventqueue, this`activequeues, this`eventCount, this`eventCountActive, this`views
      modifies ev`flags, ev`call, this`loop, timeheap`p, timeheap`n, timeheap`contents, timeheap.p,
        timeheap.contents`heapIdx
      ensures Valid() && timeheap.p == old(timeheap.p) && timeheap.contents == old(timeheap.contents) - {ev}
      ensures Onward(old(loop), loop)
      ensures Progress(was, order + [ev], now) && Called(order + [ev])
      ensures forall e :: e in all ==> e.deadline == old(e.deadline)
    {
      ReachedOneMore(was, order, now, timeheap.contents, views, eventqueue, activequeues, ev);
      FireTimely(ev, order);
    }

    // The first timer of the heap, if it is due.
    method TopDue(now: Timeval, ghost was: Snapshot) returns (ev: Event?)
      requires timeheap.Valid() && timeheap.contents <= all && Due(was)
      ensures ev == null ==> forall x :: x in timeheap.contents ==> Later(was.due[x], now)
      ensures ev != null ==> ev in timeheap.contents && !Later(was.due[ev], now)
      ensures ev != null ==> forall x :: x in timeheap.contents ==> !Later(was.due[ev], was.due[x])
    {
      ev := timeheap.Top();
      if ev != null && Later(ev.deadline, now) {
        ev := null;
      }
    }

    // The first timer of the heap fires if it is due.
    method FireTop(now: Timeval, ghost was: Snapshot, ghost order: seq<Event>)
      returns (fired: bool, ghost order': seq<Event>)
      requires Valid() && Progress(was, order, now) && Called(order) && Due(was)
      modifies this`exited, this`eventqueue, this`activequeues, this`eventCount, this`eventCountActive, this`views
      modifies all`flags, all`call, all`heapIdx, this`loop, timeheap`p, timeheap`n, timeheap`contents, timeheap.p
      ensures Valid() && timeheap.p == old(timeheap.p) && Onward(old(loop), loop)
      ensures Progress(was, order', now) && Called(order')
      ensures fired ==> timeheap.contents < old(timeheap.contents)
      ensures !fired ==> forall x :: x in timeheap.contents ==> Later(was.due[x], now)
      ensures forall e :: e in all ==> e.deadline == old(e.deadline)
    {
      var ev := TopDue(now, was);
      if ev == null {
        return false, order;
      }
      var e: Event := ev;
      FireNext(e, was, order, now);
      return true, order + [e];
    }

    // The loop of timeout_process.
    method FireAll(now: Timeval, ghost was: Snapshot) returns (ghost order: seq<Event>)
      requires Valid() && Progress(was, [], now) && Due(was)
      modifies this`exited, this`eventqueue, this`activequeues, this`eventCount, this`eventCountActive, this`views
      modifies all`flags, all`call, all`heapIdx, this`loop, timeheap`p, timeheap`n, timeheap`contents, timeheap.p
      ensures Valid() && timeheap.p == old(timeheap.p) && Progress(was, order, now) && Called(order)
      ensures Onward(old(loop), loop)
      ensures forall x :: x in timeheap.contents ==> Later(was.due[x], now)
    {
      order := [];
      var fired := true;
      while fired
        invariant Valid() && timeheap.p == old(timeheap.p) && Progress(was, order, now) && Called(order) && Due(was)
        invariant !fired ==> forall x :: x in timeheap.contents ==> Later(was.due[x], now)
        invariant Onward(old(loop), loop)
        decreases fired, timeheap.contents
      {
        fired, order := FireTop(now, was, order);
      }
    }

    // timeout_process: order is the order in which the timers fired.
    method TimeoutProcess(now: Timeval) returns (ghost was: Snapshot, ghost order: seq<Event>)
      requires Valid()
      modifies this`exited, this`eventqueue, this`activequeues, this`eventCount, this`eventCountActive, this`views
      modifies all`flags, all`call, all`heapIdx, this`loop, timeheap`p, timeheap`n, timeheap`contents, timeheap.p
      ensures Valid() && timeheap.p == old(timeheap.p) && was == old(Now())
      ensures timeheap.contents == set e | e in was.timed && Later(was.due[e], now)
      ensures Members(order) == set e | e in was.timed && !Later(was.due[e], now)
      ensures Progress(was, order, now) && Called(order) && Onward(old(loop), loop)
      ensures forall e :: e in old(timeheap.contents) ==> (e in order <==> !Later(e.deadline, now))
      ensures forall i, j {:trigger order[i], order[j]} :: 0 <= i < j < |order| ==>
        order[i] in all && order[j] in all && order[i] != order[j] && !Later(order[i].deadline, order[j].deadline)
      ensures forall e {:trigger e.flags} :: e in all ==>
        e.flags == if e in order then Flags(false, false, true, old(e.flags.internal)) else old(e.flags)
      ensures forall e :: e in order ==> e.call.res == What(true, false, false, false, false) && e.call.ncalls == 1
      ensures eventqueue == Excluding(old(eventqueue), set e | e in order)
      ensures |activequeues| == |old(activequeues)|
      ensures forall k {:trigger activequeues[k]} :: 0 <= k < |activequeues| ==>
        activequeues[k] ==
        Excluding(old(activequeues)[k], set e | e in order) +
        Excluding(order, set e | e in was.views && was.views[e].pri != k)
    {
      was, order := Expired(now);
      ReachedFlags(was, order, now, timeheap.contents, views, eventqueue, activequeues);
    }

    // The timers that are due fire.
    method Expired(now: Timeval) returns (ghost was: Snapshot, ghost order: seq<Event>)
      requires Valid()
      modifies this`exited, this`eventqueue, this`activequeues, this`eventCount, this`eventCountActive, this`views
      modifies all`flags, all`call, all`heapIdx, this`loop, timeheap`p, timeheap`n, timeheap`contents, timeheap.p
      ensures Valid() && timeheap.p == old(timeheap.p) && was == old(Now())
      ensures timeheap.contents == set e | e in was.timed && Later(was.due[e], now)
      ensures Members(order) == set e | e in was.timed && !Later(was.due[e], now)
      ensures Progress(was, order, now) && Called(order) && Onward(old(loop), loop)
      ensures eventqueue == Excluding(old(eventqueue), set e | e in order)
      ensures |activequeues| == |old(activequeues)|
      ensures forall k {:trigger activequeues[k]} :: 0 <= k < |activequeues| ==>
        activequeues[k] ==
        Excluding(old(activequeues)[k], set e | e in order) +
        Excluding(order, set e | e in was.views && was.views[e].pri != k)
    {
      was := Now();
      ReachedNone(was, now);
      order := FireAll(now, was);
      ReachedAll(was, order, now, timeheap.contents, views, eventqueue, activequeues);
      ReachedQueues(was, order, now, timeheap.contents, views, eventqueue, activequeues);
    }

    method SetPri(ev: Event, pri: int)
      modifies ev`pri
      ensures ev.pri == pri && Timed() == old(Timed())
    {
      ev.pri := pri;
    }

    // event_base_set: an event that is on no queue joins the base, or is in it already.
    method EventBaseSet(ev: Event) returns (ok: bool)
      requires Valid() && |activequeues| > 0 && (ev !in all ==> ev.heapIdx == -1)
      modifies this`all, this`views, ev`pri
      ensures Valid() && (ok <==> ev.flags == Flags(false, false, false, false))
      ensures ok ==> all == old(all) + {ev} && views == old(views)[ev := View(ev.flags, |activequeues| / 2)]
      ensures !ok ==> all == old(all) && views == old(views) && ev.pri == old(ev.pri)
    {
      ok := ev.flags == Flags(false, false, false, false);
      if ok {
        Adopt(ev);
      }
    }

    // An event that is on no queue gets the middle priority of the base.
    method Adopt(ev: Event)
      requires Valid() && ev.flags == Flags(false, false, false, ev.flags.internal) && |activequeues| > 0
      requires ev !in all ==> ev.heapIdx == -1
      modifies this`all, this`views, ev`pri
      ensures Valid() && all == old(all) + {ev}
      ensures views == old(views)[ev := View(ev.flags, |activequeues| / 2)]
    {
      ghost var pri := |activequeues| / 2;
      if ev in all {
        Reprioritised(views, eventqueue, activequeues, timeheap.contents, eventCount, eventCountActive, ev, pri);
      } else {
        Newcomer(views, eventqueue, activequeues, timeheap.contents, eventCount, eventCountActive, ev,
          View(ev.flags, pri));
      }
      SetPri(ev, |activequeues| / 2);
      Admit(ev);
    }

    ghost method Admit(ev: Event)
      requires views.Keys == all && Timed() && ev.heapIdx == -1
      requires forall e :: e in all && e != ev ==> e.flags == views[e].flags && e.pri == views[e].pri
      modifies this`all, this`views
      ensures Mirrors() && Timed() && all == old(all) + {ev} && views == old(views)[ev := View(ev.flags, ev.pri)]
    {
      all := all + {ev};
      views := views[ev := View(ev.flags, ev.pri)];
    }

    // event_priority_set
    method PrioritySet(ev: Event, pri: int) returns (ok: bool)
      requires Valid() && ev in all
      modifies this`views, ev`pri
      ensures Valid() && (ok <==> !ev.flags.active && 0 <= pri < |activequeues|)
      ensures views == if ok then old(views)[ev := old(views)[ev].(pri := pri)] else old(views)
    {
      if ev.flags.active {
        return false;
      }
      if pri < 0 || pri >= |activequeues| {
        return false;
      }
      Reprioritised(views, eventqueue, activequeues, timeheap.contents, eventCount, eventCountActive, ev, pri);
      SetPri(ev, pri);
      ghost var v := views[ev := views[ev].(pri := pri)];
      assert v.Keys == all;
      views := v;
      assert Mirrors();
      return true;
    }

    // timeout_correct, where the clock is not monotonic: now is what it shows.
    method TimeoutCorrect(now: Timeval)
      requires Valid() && Normal(now) && Normal(eventTv)
      modifies this`eventTv, timeheap.contents`deadline
      ensures eventTv == if Later(old(eventTv), now) then old(eventTv) else now
      ensures Later(old(eventTv), now) ==>
                forall e :: e in timeheap.contents ==>
                  e.deadline == TimerSub(old(e.deadline), TimerSub(old(eventTv), now))
      ensures !Later(old(eventTv), now) ==> forall e :: e in timeheap.contents ==> e.deadline == old(e.deadline)
      ensures Later(old(eventTv), now) ==> forall e :: e in timeheap.contents && Normal(old(e.deadline)) ==>
                Normal(e.deadline) && Micros(old(e.deadline)) - Micros(e.deadline) == Micros(old(eventTv)) - Micros(now)
      ensures Valid() <==> (Later(old(eventTv), now) ==>
                              Steady(old(timeheap.Keys(timeheap.n)), TimerSub(old(eventTv), now)))
      ensures (forall e :: e in timeheap.contents ==> Normal(old(e.deadline))) ==> Valid()
    {
      if !Later(eventTv, now) {
        eventTv := now;
        return;
      }
      var off := TimerSub(eventTv, now);
      TimeIsMicros(eventTv, now);
      Rewind(off);
      forall e | e in timeheap.contents && Normal(old(e.deadline))
        ensures Normal(e.deadline) && Micros(old(e.deadline)) - Micros(e.deadline) == Micros(old(eventTv)) - Micros(now)
      {
        TimeIsMicros(old(e.deadline), off);
      }
    }

    // Every timer moves back.
    method Rewind(off: Timeval)
      requires Valid()
      modifies timeheap.contents`deadline
      ensures Valid() <==> Steady(old(timeheap.Keys(timeheap.n)), off)
      ensures forall e :: e in timeheap.contents ==> e.deadline == TimerSub(old(e.deadline), off)
      ensures (forall e :: e in timeheap.contents ==> Normal(old(e.deadline))) ==> Valid()
    {
      timeheap.Rewind(off);
      assert Tallied() && Outside();
    }

    // What no operation changes.
    ghost predicate Steadfast(all: set<Event>, queues: nat)
      reads this
    {
      this.all == all && |activequeues| == queues
    }

    ghost predicate Allowed(op: Op)
      reads this`all
    {
      op.Break? || op.ev in all
    }

    ghost predicate AllAllowed(script: seq<seq<Op>>)
      reads this`all
    {
      forall i, j :: 0 <= i < |script| && 0 <= j < |script[i]| ==> Allowed(script[i][j])
    }

    // The clock and all deadlines are normalised.
    ghost predicate OnTime()
      reads this`eventTv, this`all, all`deadline
    {
      // A let expression keeps the verifier from splitting the times into parts.
      var normal := Normal(eventTv) && forall e {:trigger e.deadline} :: e in all ==> Normal(e.deadline);
      normal
    }

    // One call of the library, from anywhere.
    method Perform(op: Op)
      requires Valid() && Allowed(op)
      modifies this, all`flags, all`call, all`heapIdx, all`deadline, all`pri, timeheap, timeheap.p
      ensures Valid() && Steadfast(old(all), |old(activequeues)|) &&
        (timeheap.p == old(timeheap.p) || fresh(timeheap.p))
      ensures Onward(old(loop), loop) && (old(OnTime()) && Timely(op) ==> OnTime())
    {
      if op.Add? {
        PerformAdd(op.ev, op.tv, op.now, op.memory, op.accepted);
      } else {
        PerformUntimed(op);
      }
    }

    // The calls that set no timeout.
    method PerformUntimed(op: Op)
      requires Valid() && Allowed(op) && !op.Add?
      modifies this`exited, this`eventqueue, this`activequeues, this`eventCount, this`eventCountActive, this`views,
        this`loop, this`eventBreak
      modifies all`flags, all`call, all`heapIdx, all`pri, timeheap, timeheap.p
      ensures Valid() && |activequeues| == |old(activequeues)| && timeheap.p == old(timeheap.p)
      ensures Onward(old(loop), loop)
    {
      match op {
        case Del(ev, removed) =>
          var ok := EventDel(ev, removed);
        case Activate(ev, res, ncalls) =>
          EventActive(ev, res, ncalls);
        case Prioritise(ev, pri) =>
          var ok := PrioritySet(ev, pri);
        case Break =>
          LoopBreak();
        case _ =>
      }
    }

    // event_base_loopbreak
    method LoopBreak()
      requires Valid()
      modifies this`eventBreak
      ensures Valid() && eventBreak
    {
      eventBreak := true;
      assert Tallied() == old(Tallied()) && Timed() == old(Timed());
    }

    method PerformAdd(ev: Event, tv: Option<Timeval>, now: Timeval, memory: bool, accepted: bool)
      requires Valid() && ev in all
      modifies this, all`flags, all`call, all`heapIdx, all`deadline, all`pri, timeheap, timeheap.p
      ensures Valid() && Steadfast(old(all), |old(activequeues)|) &&
        (timeheap.p == old(timeheap.p) || fresh(timeheap.p))
      ensures Onward(old(loop), loop)
      ensures old(OnTime()) && Timely(Add(ev, tv, now, memory, accepted)) ==> OnTime()
    {
      AddInTime(ev, tv, now, memory, accepted);
    }

    method AddInTime(ev: Event, tv: Option<Timeval>, now: Timeval, memory: bool, accepted: bool)
      requires Valid() && ev in all
      modifies this`exited, this`eventqueue, this`activequeues, this`eventCount, this`eventCountActive, this`views
      modifies ev`flags, ev`heapIdx, ev`deadline, this`loop, timeheap`p, timeheap`n, timeheap`contents,
        timeheap.p, timeheap.contents`heapIdx
      ensures Valid() && |activequeues| == |old(activequeues)| && Onward(old(loop), loop)
      ensures timeheap.p == old(timeheap.p) || fresh(timeheap.p)
      ensures old(OnTime()) && Timely(Add(ev, tv, now, memory, accepted)) ==> OnTime()
    {
      ghost var timely := OnTime() && Timely(Add(ev, tv, now, memory, accepted));
      if timely && tv.Some? {
        TimeIsMicros(now, tv.value);
      }
      AddSome(ev, tv, now, memory, accepted);
      assert timely ==> Normal(ev.deadline);
    }

    // event_add, of which only the deadline is of interest.
    method AddSome(ev: Event, tv: Option<Timeval>, now: Timeval, memory: bool, accepted: bool)
      requires Valid() && ev in all
      modifies this`exited, this`eventqueue, this`activequeues, this`eventCount, this`eventCountActive, this`views
      modifies ev`flags, ev`heapIdx, ev`deadline, this`loop, timeheap`p, timeheap`n, timeheap`contents,
        timeheap.p, timeheap.contents`heapIdx
      ensures Valid() && |activequeues| == |old(activequeues)| && Onward(old(loop), loop)
      ensures timeheap.p == old(timeheap.p) || fresh(timeheap.p)
      ensures ev.deadline == old(ev.deadline) || (tv.Some? && ev.deadline == TimerAdd(now, tv.value))
    {
      var ok := EventAdd(ev, tv, now, memory, accepted);
      LeftOnward(ok && tv.Some? && old(ev.flags.active), ev.call, old(loop));
    }

    // What a callback does.
    method Callback(ops: seq<Op>)
      requires Valid() && forall i :: 0 <= i < |ops| ==> Allowed(ops[i])
      modifies this, all`flags, all`call, all`heapIdx, all`deadline, all`pri, timeheap, timeheap.p
      ensures Valid() && Steadfast(old(all), |old(activequeues)|) &&
        (timeheap.p == old(timeheap.p) || fresh(timeheap.p))
      ensures Onward(old(loop), loop)
      ensures old(OnTime()) && (forall i :: 0 <= i < |ops| ==> Timely(ops[i])) ==> OnTime()
    {
      var i := 0;
      while i < |ops|
        invariant 0 <= i <= |ops| && Valid() && Steadfast(old(all), |old(activequeues)|) && Onward(old(loop), loop)
        invariant timeheap.p == old(timeheap.p) || fresh(timeheap.p)
        invariant old(OnTime()) && (forall j :: 0 <= j < i ==> Timely(ops[j])) ==> OnTime()
      {
        Perform(ops[i]);
        i := i + 1;
      }
    }

    // The first queue that has an active event.
    method FirstQueue() returns (k: nat)
      requires eventCountActive == TotalLength(activequeues) && eventCountActive > 0
      ensures k < |activequeues| && activequeues[k] != [] && forall j :: 0 <= j < k ==> activequeues[j] == []
    {
      SomeQueue(activequeues);
      k := 0;
      while activequeues[k] == []
        invariant 0 <= k < |activequeues| && forall j :: 0 <= j < k ==> activequeues[j] == []
        invariant exists j :: k <= j < |activequeues| && activequeues[j] != []
        decreases |activequeues| - k
      {
        k := k + 1;
      }
    }

    // The head of queue k leaves the queues and its calls are counted.
    method TakeOut(k: nat) returns (ev: Event)
      requires Valid() && k < |activequeues| && activequeues[k] != []
      modifies this`exited, this`eventqueue, this`activequeues, this`eventCount, this`eventCountActive, this`views,
        this`loop
      modifies all`flags, all`call, all`heapIdx, timeheap`p, timeheap`n, timeheap`contents, timeheap.p
      ensures Valid() && timeheap.p == old(timeheap.p)
      ensures |activequeues| == |old(activequeues)|
      ensures ev == old(activequeues)[k][0] && activequeues[k] == old(activequeues)[k][1..]
      ensures loop.left == old(ev.call).ncalls && loop.frame == old(loop.frame)
      ensures ev in all && ev.call == old(ev.call).(frame := loop.frame)
      ensures HasServed(old(views), views, ev, ev.events.persist)
      ensures forall e {:trigger e.call} :: e in all && e != ev ==> e.call == old(e.call)
    {
      ev := Head(k);
      Release(ev);
    }

    // The same, and no time changes.
    method TakeHead(k: nat) returns (ev: Event)
      requires Valid() && k < |activequeues| && activequeues[k] != []
      modifies this`exited, this`eventqueue, this`activequeues, this`eventCount, this`eventCountActive, this`views,
        this`loop
      modifies all`flags, all`call, all`heapIdx, timeheap`p, timeheap`n, timeheap`contents, timeheap.p
      ensures Valid() && timeheap.p == old(timeheap.p)
      ensures |activequeues| == |old(activequeues)|
      ensures ev == old(activequeues)[k][0] && activequeues[k] == old(activequeues)[k][1..]
      ensures loop.left == old(ev.call).ncalls && loop.frame == old(loop.frame)
      ensures ev in all && ev.call == old(ev.call).(frame := loop.frame)
      ensures HasServed(old(views), views, ev, ev.events.persist)
      ensures forall e {:trigger e.call} :: e in all && e != ev ==> e.call == old(e.call)
      ensures OnTime() == old(OnTime())
    {
      ev := TakeOut(k);
    }

    method Release(ev: Event)
      requires Valid() && ev in all && ev.flags.active
      modifies this`exited, this`eventqueue, this`activequeues, this`eventCount, this`eventCountActive, this`views,
        this`loop
      modifies ev`flags, ev`call, timeheap`p, timeheap`n, timeheap`contents, timeheap.p, timeheap.contents`heapIdx
      ensures Valid() && timeheap.p == old(timeheap.p)
      ensures activequeues == old(activequeues)[ev.pri := Excluding(old(activequeues)[ev.pri], {ev})]
      ensures loop.left == old(ev.call).ncalls && loop.frame == old(loop.frame)
      ensures ev.call == old(ev.call).(frame := loop.frame)
      ensures HasServed(old(views), views, ev, ev.events.persist)
    {
      ghost var call := ev.call;
      Deactivate(ev);
      assert ev.call == call;
      Link(ev);
    }

    method Head(k: nat) returns (ev: Event)
      requires Tallied() && k < |activequeues| && activequeues[k] != []
      ensures ev == activequeues[k][0] && ev in all && ev.flags.active && ev.pri == k
      ensures Excluding(activequeues[k], {ev}) == activequeues[k][1..]
    {
      ev := activequeues[k][0];
      assert ev in activequeues[k];
      TailRemains(activequeues[k]);
    }

    // An active event leaves the active queue, and unless it is persistent every other queue.
    method Deactivate(ev: Event)
      requires Valid() && ev in all && ev.flags.active
      modifies this`exited, this`eventqueue, this`activequeues, this`eventCount, this`eventCountActive, this`views,
        this`loop
      modifies ev`flags, timeheap`p, timeheap`n, timeheap`contents, timeheap.p, timeheap.contents`heapIdx
      ensures Valid() && timeheap.p == old(timeheap.p) && loop.frame == old(loop.frame)
      ensures activequeues == old(activequeues)[ev.pri := Excluding(old(activequeues)[ev.pri], {ev})]
      ensures HasServed(old(views), views, ev, ev.events.persist)
    {
      if ev.events.persist {
        RemoveActive(ev);
      } else {
        var ok := EventDel(ev, true);
      }
    }

    method Link(ev: Event)
      requires Valid()
      modifies this`loop, ev`call
      ensures Valid() && loop == old(loop).(left := ev.call.ncalls)
      ensures ev.call == old(ev.call).(frame := loop.frame)
    {
      loop := loop.(left := ev.call.ncalls);
      ev.call := ev.call.(frame := loop.frame);
      assert Tallied() == old(Tallied()) && Timed() == old(Timed());
    }

    // One call of the callback of ev, the used-th of the run.
    method CallOnce(ev: Event, script: seq<seq<Op>>, used: nat)
      requires Valid() && ev in all && loop.left > 0 && AllAllowed(script)
      modifies this, all`flags, all`call, all`heapIdx, all`deadline, all`pri, timeheap, timeheap.p
      ensures Valid() && Steadfast(old(all), |old(activequeues)|) &&
        (timeheap.p == old(timeheap.p) || fresh(timeheap.p))
      ensures Onward(old(loop), loop) && loop.left < old(loop.left)
      ensures used >= |script| ==> activequeues == old(activequeues) && eventBreak == old(eventBreak)
      ensures used >= |script| ==> loop.left == old(loop.left) - 1 && called == old(called) + [ev]
      ensures used >= |script| ==> views == old(views)
      ensures used >= |script| ==> forall e {:trigger e.call} :: e in all && e != ev ==> e.call == old(e.call)
      ensures old(OnTime()) && AllTimely(script) ==> OnTime()
    {
      Countdown(ev);
      if used < |script| {
        Callback(script[used]);
      }
    }

    method Countdown(ev: Event)
      requires Valid() && ev in all && loop.left > 0
      modifies this`loop, this`called, ev`call
      ensures Valid() && loop == old(loop).(left := old(loop.left) - 1) && called == old(called) + [ev]
      ensures ev.call == old(ev.call).(ncalls := loop.left)
    {
      loop := loop.(left := loop.left - 1);
      ev.call := ev.call.(ncalls := loop.left);
      called := called + [ev];
      assert Tallied() == old(Tallied()) && Timed() == old(Timed());
    }

    // The callback of ev is called until its calls are used up or the loop is to break.
    method CallAll(ev: Event, script: seq<seq<Op>>, used: nat) returns (used': nat, broke: bool)
      requires Valid() && ev in all && AllAllowed(script)
      modifies this, all`flags, all`call, all`heapIdx, all`deadline, all`pri, timeheap, timeheap.p
      ensures Valid() && Steadfast(old(all), |old(activequeues)|) &&
        (timeheap.p == old(timeheap.p) || fresh(timeheap.p))
      ensures used' >= used && (broke ==> eventBreak && used' > used) && Onward(old(loop), loop)
      ensures used' == used || used >= |script| ==> activequeues == old(activequeues)
      ensures used >= |script| ==> views == old(views)
      ensures used >= |script| && !old(eventBreak) ==>
        !broke && !eventBreak && called == old(called) + Repeated(ev, old(loop.left))
      ensures used >= |script| ==> forall e {:trigger e.call} :: e in all && e != ev ==> e.call == old(e.call)
      ensures old(OnTime()) && AllTimely(script) ==> OnTime()
    {
      used', broke := used, false;
      ghost var quiet, timely := used >= |script| && !eventBreak, OnTime() && AllTimely(script);
      while loop.left > 0
        invariant Valid() && Steadfast(old(all), |old(activequeues)|) &&
          (timeheap.p == old(timeheap.p) || fresh(timeheap.p))
        invariant used' >= used && (used' == used || used >= |script| ==> activequeues == old(activequeues))
        invariant used >= |script| ==> views == old(views)
        invariant Onward(old(loop), loop)
        invariant quiet ==> !eventBreak && called == old(called) + Repeated(ev, old(loop.left) - loop.left)
        invariant used >= |script| ==> forall e {:trigger e.call} :: e in all && e != ev ==> e.call == old(e.call)
        invariant timely ==> OnTime()
        decreases loop.left
      {
        CallOnce(ev, script, used');
        used' := used' + 1;
        if eventBreak {
          broke := true;
          return;
        }
      }
    }

    // The first event of queue k leaves it and its callback is called.
    method ServeHead(k: nat, script: seq<seq<Op>>, used: nat) returns (ev: Event, used': nat, broke: bool)
      requires Valid() && AllAllowed(script) && k < |activequeues| && activequeues[k] != []
      modifies this, all`flags, all`call, all`heapIdx, all`deadline, all`pri, timeheap, timeheap.p
      ensures Valid() && Steadfast(old(all), |old(activequeues)|) &&
        (timeheap.p == old(timeheap.p) || fresh(timeheap.p))
      ensures used' >= used && (broke ==> eventBreak) && loop.frame == old(loop.frame)
      ensures ev == old(activequeues)[k][0]
      ensures used >= |script| ==> HasServed(old(views), views, ev, ev.events.persist)
      ensures used' == used || used >= |script| ==> activequeues[k] == old(activequeues)[k][1..]
      ensures used >= |script| && !old(eventBreak) ==>
        !broke && !eventBreak && called == old(called) + Repeated(ev, old(activequeues[k][0].call.ncalls))
      ensures used >= |script| ==> forall e {:trigger e.call} :: e in all && e != ev ==> e.call == old(e.call)
      ensures old(OnTime()) && AllTimely(script) ==> OnTime()
    {
      ev := TakeHead(k);
      ghost var queues := activequeues;
      assert queues[k] == old(activequeues)[k][1..];
      used', broke := CallAll(ev, script, used);
      assert used' == used || used >= |script| ==> activequeues == queues;
    }

    // The calls due to the events of a queue.
    ghost function CallsDue(q: seq<Event>): (due: seq<nat>)
      reads Members(q)`call
      ensures |due| == |q| && forall i {:trigger due[i]} {:trigger q[i]} :: 0 <= i < |q| ==> due[i] == q[i].call.ncalls
    {
      if q == [] then [] else [q[0].call.ncalls] + CallsDue(q[1..])
    }

    // How a dispatch stands whose callbacks do nothing: all events of q but those of queue k
    // have been served, which are still to be called as often as was due.
    ghost predicate Quiet(k: nat, q: seq<Event>, due: seq<nat>, before: seq<Event>)
      reads this`activequeues, this`called, this`eventBreak, Members(q)`call
    {
      // A let expression keeps the verifier from splitting this into parts.
      var quiet := !eventBreak && k < |activequeues| && Going(q, due, activequeues[k], before, called) &&
                   forall i {:trigger q[i]} :: |q| - |activequeues[k]| <= i < |q| ==> q[i].call.ncalls == due[i];
      quiet
    }

    // One turn of the loop of event_process_active.
    method ServeTurn(k: nat, script: seq<seq<Op>>, used: nat, ghost q: seq<Event>, ghost due: seq<nat>,
        ghost before: seq<Event>, ghost quiet: bool, ghost v: Views<Event>, ghost keep: set<Event>)
      returns (used': nat, broke: bool)
      requires Valid() && AllAllowed(script) && k < |activequeues| && activequeues[k] != []
      requires quiet ==> script == [] && !eventBreak && Quiet(k, q, due, before) && Distinct(q) && Members(q) <= all
      requires quiet ==> Spent(v, views, q, |q| - |activequeues[k]|, keep) && keep == Persistent(v.Keys)
      modifies this, all`flags, all`call, all`heapIdx, all`deadline, all`pri, timeheap, timeheap.p
      ensures Valid() && Steadfast(old(all), |old(activequeues)|) &&
        (timeheap.p == old(timeheap.p) || fresh(timeheap.p))
      ensures used' >= used && (broke ==> eventBreak) && loop.frame == old(loop.frame)
      ensures used' == used || used >= |script| ==> activequeues[k] == old(activequeues)[k][1..]
      ensures quiet ==> !broke && !eventBreak && Quiet(k, q, due, before)
      ensures quiet ==> Spent(v, views, q, |q| - |activequeues[k]|, keep)
      ensures old(OnTime()) && AllTimely(script) ==> OnTime()
    {
      ghost var i := |q| - |activequeues[k]|;
      if quiet {
        GoingOn(q, due, activequeues[k], before, called, activequeues[k][0].call.ncalls);
        assert forall j {:trigger q[j]} :: i < j < |q| ==> q[j] != q[i] && q[j] in Members(q);
      }
      var ev;
      ghost var now := views;
      ev, used', broke := ServeHead(k, script, used);
      if quiet {
        assert ev == q[i] && ev in Members(q);
        SpentMore(v, now, views, q, i, keep);
      }
    }

    // The loop of event_process_active. If no callback does anything, those of the queue are
    // called in order, each as often as its event asks.
    method ServeQueue(k: nat, script: seq<seq<Op>>)
      requires Valid() && AllAllowed(script) && k < |activequeues|
      modifies this, all`flags, all`call, all`heapIdx, all`deadline, all`pri, timeheap, timeheap.p
      ensures Valid() && Steadfast(old(all), |old(activequeues)|) && loop.frame == old(loop.frame) &&
        (timeheap.p == old(timeheap.p) || fresh(timeheap.p))
      ensures eventBreak || activequeues[k] == []
      ensures script == [] && !old(eventBreak) ==>
        called == old(called) + CallsOf(old(activequeues)[k], old(CallsDue(activequeues[k])))
      ensures script == [] && !old(eventBreak) ==>
        Spent(old(views), views, old(activequeues)[k], |old(activequeues)[k]|, old(Persistent(all)))
      ensures old(OnTime()) && AllTimely(script) ==> OnTime()
    {
      ghost var v, keep := views, Persistent(all);
      ghost var quiet, timely := script == [] && !eventBreak, OnTime() && AllTimely(script);
      ghost var q, due := activequeues[k], CallsDue(activequeues[k]);
      assert Distinct(q) && forall e :: e in activequeues[k] ==> e in all;
      var used := 0;
      while activequeues[k] != []
        invariant Valid() && Steadfast(old(all), |old(activequeues)|) && loop.frame == old(loop.frame) &&
          (timeheap.p == old(timeheap.p) || fresh(timeheap.p))
        invariant quiet ==> !eventBreak && Quiet(k, q, due, old(called))
        invariant quiet ==> Spent(v, views, q, |q| - |activequeues[k]|, keep) && keep == Persistent(v.Keys)
        invariant timely ==> OnTime()
        decreases if used < |script| then |script| - used else 0, |activequeues[k]|
      {
        var broke;
        used, broke := ServeTurn(k, script, used, q, due, old(called), quiet, v, keep);
        if broke {
          return;
        }
      }
      if quiet {
        GoingDone(q, due, old(called), called);
      }
    }

    // event_process_active; script[i] is what the i-th callback of the run does, and
    // callbacks after the script do nothing.
    method ProcessActive(script: seq<seq<Op>>) returns (served: nat)
      requires Valid() && eventCountActive > 0 && AllAllowed(script) && loop.frame == 0
      modifies this, all`flags, all`call, all`heapIdx, all`deadline, all`pri, timeheap, timeheap.p
      ensures Valid() && Steadfast(old(all), |old(activequeues)|) &&
        (timeheap.p == old(timeheap.p) || fresh(timeheap.p))
      ensures served < |activequeues| && old(activequeues)[served] != [] && loop.frame == 0
      ensures forall k :: 0 <= k < served ==> old(activequeues)[k] == []
      ensures eventBreak || activequeues[served] == []
      ensures script == [] && !old(eventBreak) ==>
        called == old(called) + CallsOf(old(activequeues)[served], old(CallsDue(activequeues[served])))
      ensures script == [] && !old(eventBreak) ==> forall e {:trigger e.flags} :: e in all ==>
        e.flags ==
        if e !in old(activequeues)[served] then old(e.flags)
        else if e.events.persist then old(e.flags).(active := false)
        else Flags(false, false, false, old(e.flags.internal))
      ensures old(OnTime()) && AllTimely(script) ==> OnTime()
    {
      ghost var v, q, keep := views, activequeues, Persistent(all);
      served := Serve(script);
      if script == [] && !old(eventBreak) {
        SpentAll(v, views, q[served], keep);
      }
    }

    // The queue that comes first is served.
    method Serve(script: seq<seq<Op>>) returns (served: nat)
      requires Valid() && eventCountActive > 0 && AllAllowed(script) && loop.frame == 0
      modifies this, all`flags, all`call, all`heapIdx, all`deadline, all`pri, timeheap, timeheap.p
      ensures Valid() && Steadfast(old(all), |old(activequeues)|) &&
        (timeheap.p == old(timeheap.p) || fresh(timeheap.p))
      ensures served < |activequeues| && old(activequeues)[served] != [] && loop.frame == 0
      ensures forall k :: 0 <= k < served ==> old(activequeues)[k] == []
      ensures eventBreak || activequeues[served] == []
      ensures script == [] && !old(eventBreak) ==>
        called == old(called) + CallsOf(old(activequeues)[served], old(CallsDue(activequeues[served])))
      ensures script == [] && !old(eventBreak) ==>
        Spent(old(views), views, old(activequeues)[served], |old(activequeues)[served]|, old(Persistent(all)))
      ensures old(OnTime()) && AllTimely(script) ==> OnTime()
    {
      served := FirstQueue();
      ServeAll(served, script);
    }

    // A dispatch of queue k.
    method ServeAll(k: nat, script: seq<seq<Op>>)
      requires Valid() && k < |activequeues| && AllAllowed(script) && loop.frame == 0
      modifies this, all`flags, all`call, all`heapIdx, all`deadline, all`pri, timeheap, timeheap.p
      ensures Valid() && Steadfast(old(all), |old(activequeues)|) &&
        (timeheap.p == old(timeheap.p) || fresh(timeheap.p))
      ensures loop.frame == 0 && (eventBreak || activequeues[k] == [])
      ensures script == [] && !old(eventBreak) ==>
        called == old(called) + CallsOf(old(activequeues)[k], old(CallsDue(activequeues[k])))
      ensures script == [] && !old(eventBreak) ==>
        Spent(old(views), views, old(activequeues)[k], |old(activequeues)[k]|, old(Persistent(all)))
      ensures old(OnTime()) && AllTimely(script) ==> OnTime()
    {
      ghost var due := CallsDue(activequeues[k]);
      Enter();
      assert CallsDue(activequeues[k]) == due == old(CallsDue(activequeues[k]));
      ServeQueue(k, script);
      Leave();
    }

    // A dispatch begins, with a count of its own, and ends.
    method Enter()
      requires Valid()
      modifies this`loop
      ensures Valid() && loop.frame > 0 && loop.dispatches == old(loop.dispatches) + 1
    {
      loop := Loop(loop.dispatches + 1, loop.dispatches + 1, 0, loop.wild);
      assert Tallied() == old(Tallied()) && Timed() == old(Timed());
    }

    method Leave()
      requires Valid()
      modifies this`loop
      ensures Valid() && loop == old(loop).(frame := 0)
    {
      loop := loop.(frame := 0);
      assert Tallied() == old(Tallied()) && Timed() == old(Timed());
    }

    // One step of a run of the program.
    method Advance(step: Step)
      requires Valid() && loop.frame == 0
      requires step.Request? ==> Allowed(step.op)
      requires step.Dispatch? ==> AllAllowed(step.script)
      requires step.Correct? ==> OnTime() && Normal(step.now)
      modifies this, all`flags, all`call, all`heapIdx, all`deadline, all`pri, timeheap, timeheap.p
      ensures Valid() && Steadfast(old(all), |old(activequeues)|) && loop.frame == 0 &&
        (timeheap.p == old(timeheap.p) || fresh(timeheap.p))
      ensures old(OnTime()) && InTime(step) ==> OnTime()
    {
      match step {
        case Request(op) =>
          Perform(op);
        case Expire(now) =>
          var was, order := TimeoutProcess(now);
          assert |activequeues| == |was.activequeues|;
        case Correct(now) =>
          TimeoutCorrect(now);
        case Dispatch(script) =>
          if eventCountActive > 0 {
            var served := ProcessActive(script);
          }
      }
    }

    // Any run keeps the flags, the queues, the counters and the heap in agreement, and
    // never ends in event_errx. It lasts until the count of a dispatch that is over is
    // written to. The clock may be corrected if all times of the run are normalised.
    method Run(steps: seq<Step>)
      requires Valid() && loop.frame == 0
      requires forall i :: 0 <= i < |steps| && steps[i].Request? ==> Allowed(steps[i].op)
      requires forall i :: 0 <= i < |steps| && steps[i].Dispatch? ==> AllAllowed(steps[i].script)
      requires (forall i :: 0 <= i < |steps| ==> !steps[i].Correct?) ||
               (OnTime() && forall i :: 0 <= i < |steps| ==> InTime(steps[i]))
      modifies this, all`flags, all`call, all`heapIdx, all`deadline, all`pri, timeheap, timeheap.p
      ensures !loop.wild ==> Valid() && !exited
      ensures Steadfast(old(all), |old(activequeues)|) && (timeheap.p == old(timeheap.p) || fresh(timeheap.p))
    {
      var i := 0;
      while i < |steps| && !loop.wild
        invariant 0 <= i <= |steps| && Valid() && Steadfast(old(all), |old(activequeues)|) && loop.frame == 0
        invariant timeheap.p == old(timeheap.p) || fresh(timeheap.p)
        invariant old(OnTime()) && (forall j :: 0 <= j < i ==> InTime(steps[j])) ==> OnTime()
      {
        Advance(steps[i]);
        i := i + 1;
      }
    }

    // A dispatch in which the callback of the only active event breaks the loop, with a
    // call of it left.
    method BrokenDispatch(ghost ev: Event)
      requires Valid() && |activequeues| > 0 && activequeues[0] == [ev] && ev.call.ncalls == 2
      modifies this, all`flags, all`call, all`heapIdx, timeheap, timeheap.p
      ensures Valid() && ev in all && ev.call.ncalls == 1 && ev.call.frame > 0 && loop.frame == 0
      ensures all == old(all) && timeheap.p == old(timeheap.p)
    {
      Enter();
      var head := TakeOut(0);
      Countdown(head);
      LoopBreak();
      Leave();
    }
  }

  // A base of one priority with one event, which is active and to be called twice.
  method ActiveTwice() returns (base: EventBase, ev: Event)
    ensures base.Valid() && |base.activequeues| == 1 && base.activequeues[0] == [ev] && ev.call.ncalls == 2
    ensures base.all == {ev} && fresh(base) && fresh(ev) && fresh(base.timeheap) && fresh(base.timeheap.p)
  {
    base := new EventBase(1);
    ev := new Event(EV_TIMEOUT, 1, false);
    base.Adopt(ev);
    base.EventActive(ev, EV_TIMEOUT, 2);
  }

  // A run that ends so: the event of a broken dispatch is deleted.
  method DeadFrame() returns (base: EventBase)
    ensures base.loop.wild
  {
    var ev;
    base, ev := ActiveTwice();
    base.BrokenDispatch(ev);
    var ok := base.EventDel(ev, true);
  }
}
