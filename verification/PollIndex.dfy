/**
 * The poll backend's index: a dense array of slots handed to poll, and a sparse array
 * that leads from a file descriptor to its slot.
 */
module PollIndex {

  class Event {
    const fd: nat
    const read: bool
    const write: bool

    constructor (fd: nat, read: bool, write: bool)
      ensures this.fd == fd && this.read == read && this.write == write
    {
      this.fd := fd;
      this.read := read;
      this.write := write;
    }
  }

  // struct pollfd: events holds POLLIN and POLLOUT.
  datatype Slot = Slot(fd: nat, pollin: bool, pollout: bool)

  // Who is registered for reading, and who for writing, by file descriptor.
  datatype Interest = Interest(readers: map<nat, Event>, writers: map<nat, Event>)

  ghost predicate Wanted(w: Interest, fd: nat) {
    fd in w.readers || fd in w.writers
  }

  ghost function Added(w: Interest, ev: Event): Interest {
    Interest(if ev.read then w.readers[ev.fd := ev] else w.readers,
      if ev.write then w.writers[ev.fd := ev] else w.writers)
  }

  ghost function Removed(w: Interest, ev: Event): Interest {
    Interest(if ev.read then w.readers - {ev.fd} else w.readers, if ev.write then w.writers - {ev.fd} else w.writers)
  }

  // ---------------------------------------------------------------- dense and sparse

  // The slots and the index lead to each other.
  ghost predicate Inverse(slots: seq<Slot>, index: seq<nat>) {
    Dense(slots, index) && Sparse(slots, index)
  }

  ghost predicate Dense(slots: seq<Slot>, index: seq<nat>) {
    forall i {:trigger slots[i]} :: 0 <= i < |slots| ==> slots[i].fd < |index| && index[slots[i].fd] == i + 1
  }

  ghost predicate Sparse(slots: seq<Slot>, index: seq<nat>) {
    forall f {:trigger index[f]} :: 0 <= f < |index| && index[f] > 0 ==>
      index[f] <= |slots| && slots[index[f] - 1].fd == f
  }

  // A slot and its back pointers say who is registered for its file descriptor.
  ghost predicate Tells(slot: Slot, r: Event?, w: Event?, want: Interest) {
    (slot.pollin <==> slot.fd in want.readers) && (slot.pollout <==> slot.fd in want.writers) &&
    (if slot.pollin then r == want.readers[slot.fd] else r == null) &&
    (if slot.pollout then w == want.writers[slot.fd] else w == null)
  }

  ghost predicate Registered(want: Interest) {
    (forall f :: f in want.readers ==> want.readers[f].fd == f && want.readers[f].read) &&
    (forall f :: f in want.writers ==> want.writers[f].fd == f && want.writers[f].write)
  }

  // Every slot tells the truth, and every slot but perhaps one is wanted.
  ghost predicate Honest(slots: seq<Slot>, rs: seq<Event?>, ws: seq<Event?>, want: Interest, except: int) {
    |slots| == |rs| == |ws| &&
    forall i {:trigger slots[i]} :: 0 <= i < |slots| ==>
      Tells(slots[i], rs[i], ws[i], want) && (i != except ==> Wanted(want, slots[i].fd))
  }

  // Everything wanted has a slot.
  ghost predicate Covered(index: seq<nat>, want: Interest) {
    forall f: nat {:trigger Wanted(want, f)} :: Wanted(want, f) ==> f < |index| && index[f] > 0
  }

  ghost predicate Truthful(slots: seq<Slot>, rs: seq<Event?>, ws: seq<Event?>, index: seq<nat>, want: Interest,
      except: int) {
    Inverse(slots, index) && Honest(slots, rs, ws, want, except) && Covered(index, want) && Registered(want)
  }

  lemma {:induction false} OwnSlot(slots: seq<Slot>, index: seq<nat>, i: nat)
    requires Inverse(slots, index) && i < |slots|
    ensures forall k {:trigger slots[k]} :: 0 <= k < |slots| && k != i ==> slots[k].fd != slots[i].fd
  {
    assert index[slots[i].fd] == i + 1;
  }

  lemma {:induction false} AppendSlot(slots: seq<Slot>, rs: seq<Event?>, ws: seq<Event?>, index: seq<nat>,
      want: Interest, fd: nat)
    requires Truthful(slots, rs, ws, index, want, -1) && fd < |index| && index[fd] == 0
    ensures Truthful(slots + [Slot(fd, false, false)], rs + [null], ws + [null], index[fd := |slots| + 1], want,
      |slots|)
  {
    assert !Wanted(want, fd);
  }

  // The slot with the interest of the event added.
  function Marked(s: Slot, ev: Event): Slot {
    Slot(s.fd, s.pollin || ev.read, s.pollout || ev.write)
  }

  // ... and taken away.
  function Unmarked(s: Slot, ev: Event): Slot {
    Slot(s.fd, s.pollin && !ev.read, s.pollout && !ev.write)
  }

  lemma {:induction false} SameFds(slots: seq<Slot>, index: seq<nat>, i: nat, s: Slot)
    requires Inverse(slots, index) && i < |slots| && s.fd == slots[i].fd
    ensures Inverse(slots[i := s], index)
  {
  }

  lemma {:induction false} MarkSlot(slots: seq<Slot>, rs: seq<Event?>, ws: seq<Event?>, index: seq<nat>,
      want: Interest, i: nat, ev: Event)
    requires i < |slots| && Truthful(slots, rs, ws, index, want, i) && slots[i].fd == ev.fd && (ev.read || ev.write)
    ensures Truthful(slots[i := Marked(slots[i], ev)], rs[i := if ev.read then ev else rs[i]],
                     ws[i := if ev.write then ev else ws[i]], index, Added(want, ev), -1)
  {
    OwnSlot(slots, index, i);
    SameFds(slots, index, i, Marked(slots[i], ev));
    assert index[slots[i].fd] == i + 1;
    forall f: nat | Wanted(Added(want, ev), f)
      ensures f < |index| && index[f] > 0
    {
      assert f == ev.fd || Wanted(want, f);
    }
    MarkHonest(slots, rs, ws, want, i, ev);
  }

  lemma {:induction false} MarkHonest(slots: seq<Slot>, rs: seq<Event?>, ws: seq<Event?>, want: Interest, i: nat,
      ev: Event)
    requires i < |slots| && Honest(slots, rs, ws, want, i) && slots[i].fd == ev.fd && (ev.read || ev.write)
    requires forall k {:trigger slots[k]} :: 0 <= k < |slots| && k != i ==> slots[k].fd != ev.fd
    ensures Honest(slots[i := Marked(slots[i], ev)], rs[i := if ev.read then ev else rs[i]],
                   ws[i := if ev.write then ev else ws[i]], Added(want, ev), -1)
  {
    forall k | 0 <= k < |slots| && k != i
      ensures Tells(slots[k], rs[k], ws[k], Added(want, ev)) && Wanted(Added(want, ev), slots[k].fd)
    {
      assert Tells(slots[k], rs[k], ws[k], want) && Wanted(want, slots[k].fd);
    }
  }

  lemma {:induction false} UnmarkSlot(slots: seq<Slot>, rs: seq<Event?>, ws: seq<Event?>, index: seq<nat>,
      want: Interest, i: nat, ev: Event)
    requires i < |slots| && Truthful(slots, rs, ws, index, want, -1) && slots[i].fd == ev.fd
    ensures var s := Unmarked(slots[i], ev);
            Truthful(slots[i := s], rs[i := if ev.read then null else rs[i]], ws[i := if ev.write then null else ws[i]],
                     index, Removed(want, ev), if s.pollin || s.pollout then -1 else i)
  {
    OwnSlot(slots, index, i);
    SameFds(slots, index, i, Unmarked(slots[i], ev));
    forall f: nat | Wanted(Removed(want, ev), f)
      ensures f < |index| && index[f] > 0
    {
      assert Wanted(want, f);
    }
    UnmarkHonest(slots, rs, ws, want, i, ev);
  }

  lemma {:induction false} UnmarkHonest(slots: seq<Slot>, rs: seq<Event?>, ws: seq<Event?>, want: Interest, i: nat,
      ev: Event)
    requires i < |slots| && Honest(slots, rs, ws, want, -1) && slots[i].fd == ev.fd
    requires forall k {:trigger slots[k]} :: 0 <= k < |slots| && k != i ==> slots[k].fd != ev.fd
    ensures var s := Unmarked(slots[i], ev);
            Honest(slots[i := s], rs[i := if ev.read then null else rs[i]], ws[i := if ev.write then null else ws[i]],
                   Removed(want, ev), if s.pollin || s.pollout then -1 else i)
  {
    forall k | 0 <= k < |slots| && k != i
      ensures Tells(slots[k], rs[k], ws[k], Removed(want, ev)) && Wanted(Removed(want, ev), slots[k].fd)
    {
      assert Tells(slots[k], rs[k], ws[k], want) && Wanted(want, slots[k].fd);
    }
  }

  // The last element moves into the hole at i.
  function Filled<T>(s: seq<T>, i: nat): seq<T>
    requires i < |s|
  {
    s[i := s[|s| - 1]][..|s| - 1]
  }

  lemma {:induction false} FilledFromLast<T>(s: seq<T>, i: nat)
    requires i < |s|
    ensures var n := |s| - 1; Filled(s, i) == if i == n then s[..n] else s[..n][i := s[n]]
  {
  }

  function FilledIndex(slots: seq<Slot>, index: seq<nat>, i: nat): (r: seq<nat>)
    requires i < |slots| && slots[i].fd < |index| && slots[|slots| - 1].fd < |index|
  {
    var cleared := index[slots[i].fd := 0];
    if i == |slots| - 1 then cleared else cleared[slots[|slots| - 1].fd := i + 1]
  }

  lemma {:induction false} FilledAt<T>(s: seq<T>, i: nat)
    requires i < |s|
    ensures forall k {:trigger Filled(s, i)[k]} :: 0 <= k < |s| - 1 ==>
      Filled(s, i)[k] == if k == i then s[|s| - 1] else s[k]
  {
  }

  lemma {:induction false} DropDense(slots: seq<Slot>, index: seq<nat>, i: nat, k: nat)
    requires i < |slots| && Inverse(slots, index) && k < |slots| - 1
    ensures var f := Filled(slots, i)[k].fd;
            f < |index| && FilledIndex(slots, index, i)[f] == k + 1
  {
    OwnSlot(slots, index, i);
    OwnSlot(slots, index, |slots| - 1);
    assert index[slots[k].fd] == k + 1;
  }

  lemma {:induction false} DropKeepsDense(slots: seq<Slot>, index: seq<nat>, i: nat)
    requires i < |slots| && Inverse(slots, index)
    ensures Dense(Filled(slots, i), FilledIndex(slots, index, i))
  {
    var slots', index' := Filled(slots, i), FilledIndex(slots, index, i);
    forall k | 0 <= k < |slots'|
      ensures slots'[k].fd < |index'| && index'[slots'[k].fd] == k + 1
    {
      DropDense(slots, index, i, k);
    }
  }

  lemma {:induction false} DropKeepsSparse(slots: seq<Slot>, index: seq<nat>, i: nat)
    requires i < |slots| && Inverse(slots, index)
    ensures Sparse(Filled(slots, i), FilledIndex(slots, index, i))
  {
    var slots', index' := Filled(slots, i), FilledIndex(slots, index, i);
    forall f | 0 <= f < |index'| && index'[f] > 0
      ensures index'[f] <= |slots'| && slots'[index'[f] - 1].fd == f
    {
      DropSparse(slots, index, i, f);
    }
  }

  lemma {:induction false} FilledIndexAt(slots: seq<Slot>, index: seq<nat>, i: nat, f: nat)
    requires i < |slots| && slots[i].fd < |index| && slots[|slots| - 1].fd < |index| && f < |index|
    ensures FilledIndex(slots, index, i)[f] ==
      if i < |slots| - 1 && f == slots[|slots| - 1].fd then i + 1 else if f == slots[i].fd then 0 else index[f]
  {
  }

  lemma {:induction false} DropSparse(slots: seq<Slot>, index: seq<nat>, i: nat, f: nat)
    requires i < |slots| && slots[i].fd < |index| && slots[|slots| - 1].fd < |index| && f < |index|
    requires index[slots[i].fd] == i + 1 && index[slots[|slots| - 1].fd] == |slots|
    requires index[f] > 0 ==> index[f] <= |slots| && slots[index[f] - 1].fd == f
    requires FilledIndex(slots, index, i)[f] > 0
    ensures var m := FilledIndex(slots, index, i)[f];
            m < |slots| && Filled(slots, i)[m - 1].fd == f
  {
    var n, m := |slots|, FilledIndex(slots, index, i)[f];
    FilledIndexAt(slots, index, i, f);
    FilledAt(slots, i);
    if i == n - 1 || f != slots[n - 1].fd {
      assert m == index[f] && slots[m - 1].fd == f && f != slots[i].fd;
      assert m - 1 != i && m - 1 != n - 1;
    }
    assert Filled(slots, i)[m - 1] == if m - 1 == i then slots[n - 1] else slots[m - 1];
  }

  lemma {:induction false} DropSlot(slots: seq<Slot>, rs: seq<Event?>, ws: seq<Event?>, index: seq<nat>,
      want: Interest, i: nat)
    requires i < |slots| && Truthful(slots, rs, ws, index, want, i) && !slots[i].pollin && !slots[i].pollout
    ensures Truthful(Filled(slots, i), Filled(rs, i), Filled(ws, i), FilledIndex(slots, index, i), want, -1)
  {
    DropKeepsDense(slots, index, i);
    DropKeepsSparse(slots, index, i);
    assert !Wanted(want, slots[i].fd);
    FilledAt(slots, i);
    FilledAt(rs, i);
    FilledAt(ws, i);
  }

  // For each file descriptor that is registered there is one slot, which asks for what it is registered
  // for and knows by whom, and there are no other slots.
  ghost predicate SlotsTell(slots: seq<Slot>, rs: seq<Event?>, ws: seq<Event?>, index: seq<nat>, want: Interest) {
    |slots| == |rs| == |ws| &&
    (forall i {:trigger slots[i]} :: 0 <= i < |slots| ==>
      (slots[i].pollin <==> slots[i].fd in want.readers) && (slots[i].pollout <==> slots[i].fd in want.writers) &&
      (slots[i].pollin || slots[i].pollout) &&
      rs[i] == (if slots[i].pollin then want.readers[slots[i].fd] else null) &&
      ws[i] == (if slots[i].pollout then want.writers[slots[i].fd] else null)) &&
    (forall i, k {:trigger slots[i], slots[k]} :: 0 <= i < k < |slots| ==> slots[i].fd != slots[k].fd) &&
    (forall fd: nat {:trigger fd in want.readers} {:trigger fd in want.writers} ::
      fd in want.readers || fd in want.writers ==>
      fd < |index| && 0 < index[fd] <= |slots| && slots[index[fd] - 1].fd == fd)
  }

  lemma {:induction false} TruthTells(slots: seq<Slot>, rs: seq<Event?>, ws: seq<Event?>, index: seq<nat>,
      want: Interest)
    requires Truthful(slots, rs, ws, index, want, -1)
    ensures SlotsTell(slots, rs, ws, index, want)
  {
    forall i, k | 0 <= i < k < |slots|
      ensures slots[i].fd != slots[k].fd
    {
      OwnSlot(slots, index, i);
    }
    forall fd: nat | fd in want.readers || fd in want.writers
      ensures fd < |index| && 0 < index[fd] <= |slots| && slots[index[fd] - 1].fd == fd
    {
      assert Wanted(want, fd);
    }
  }

  lemma {:induction false} AddedSays(w: Interest, ev: Event)
    ensures var v := Added(w, ev);
      (ev.read ==> ev.fd in v.readers && v.readers[ev.fd] == ev) &&
      (ev.write ==> ev.fd in v.writers && v.writers[ev.fd] == ev) &&
      (!ev.read ==> v.readers == w.readers) && (!ev.write ==> v.writers == w.writers) &&
      v.readers - {ev.fd} == w.readers - {ev.fd} && v.writers - {ev.fd} == w.writers - {ev.fd}
  {
  }

  // ---------------------------------------------------------------- the backend

  function NextSize(count: nat): nat {
    if count < 32 then 32 else count * 2
  }

  // realloc to a larger size, the new elements blank.
  method Grown<T>(a: array<T>, size: nat, blank: T) returns (b: array<T>)
    requires a.Length <= size
    ensures fresh(b) && b.Length == size && b[..a.Length] == a[..]
    ensures forall k :: a.Length <= k < size ==> b[k] == blank
  {
    b := new T[size](_ => blank);
    var k := 0;
    while k < a.Length
      invariant 0 <= k <= a.Length && b[..k] == a[..k]
      invariant forall j :: a.Length <= j < size ==> b[j] == blank
    {
      b[k] := a[k];
      k := k + 1;
    }
  }

  class PollOp {
    var eventCount: nat
    var nfds: nat
    var eventSet: array<Slot>
    var rBack: array<Event?>
    var wBack: array<Event?>
    var idxplus1: array<nat>   // its length is fd_count
    var failed: bool           // an assertion of poll_check_ok has failed
    ghost var want: Interest

    // There is room for the slots in use, and for one more unless nothing was ever added.
    ghost predicate Sized()
      reads this
    {
      eventCount <= eventSet.Length <= NextSize(eventCount) && eventCount <= rBack.Length <= NextSize(eventCount) &&
      eventCount <= wBack.Length <= NextSize(eventCount) && nfds <= eventCount &&
        (nfds == eventCount ==> nfds == 0) && rBack != wBack
    }

    // A let expression keeps the verifier from splitting the invariant into its parts.
    ghost predicate ValidBut(i: int)
      reads this, eventSet, rBack, wBack, idxplus1
    {
      var valid := Sized() && Truthful(eventSet[..nfds], rBack[..nfds], wBack[..nfds], idxplus1[..], want, i) &&
                   !failed;
      valid
    }

    // The slots and the index are inverse, the slots and back pointers tell what is
    // registered, and no slot is without interest.
    ghost predicate Valid()
      reads this, eventSet, rBack, wBack, idxplus1
    {
      ValidBut(-1)
    }

    constructor ()
      ensures Valid() && want == Interest(map[], map[]) && fresh(eventSet) && fresh(rBack) && fresh(wBack) &&
        fresh(idxplus1)
    {
      eventCount, nfds := 0, 0;
      eventSet := new Slot[0];
      rBack := new Event?[0];
      wBack := new Event?[0];
      idxplus1 := new nat[0];
      want := Interest(map[], map[]);
      failed := false;
    }

    // What is handed to poll.
    lemma PollSetTells()
      requires Valid()
      ensures nfds <= eventSet.Length && nfds <= rBack.Length && nfds <= wBack.Length
      ensures SlotsTell(eventSet[..nfds], rBack[..nfds], wBack[..nfds], idxplus1[..], want)
    {
      TruthTells(eventSet[..nfds], rBack[..nfds], wBack[..nfds], idxplus1[..], want);
    }

    // The first part of poll_add: three reallocs, each of which may fail.
    method GrowSlots(m1: bool, m2: bool, m3: bool) returns (ok: bool)
      requires Valid()
      modifies this`eventCount, this`eventSet, this`rBack, this`wBack
      ensures Valid() && (ok ==> nfds + 1 < eventCount) && (m1 && m2 && m3 ==> ok)
      ensures (eventSet == old(eventSet) || fresh(eventSet)) && (rBack == old(rBack) || fresh(rBack)) &&
        (wBack == old(wBack) || fresh(wBack))
    {
      if nfds + 1 < eventCount {
        return true;
      }
      var size := NextSize(eventCount);
      if !m1 {
        return false;
      }
      GrowEvents(size);
      if !m2 {
        return false;
      }
      GrowReaders(size);
      if !m3 {
        return false;
      }
      GrowWriters(size);
      eventCount := size;
      return true;
    }

    method GrowEvents(size: nat)
      requires Valid() && size == NextSize(eventCount)
      modifies this`eventSet
      ensures Valid() && fresh(eventSet) && eventSet.Length == size
    {
      var a := Grown(eventSet, size, Slot(0, false, false));
      assert a[..nfds] == a[..eventSet.Length][..nfds] == eventSet[..nfds];
      eventSet := a;
    }

    method GrowReaders(size: nat)
      requires Valid() && size == NextSize(eventCount)
      modifies this`rBack
      ensures Valid() && fresh(rBack) && rBack.Length == size
    {
      var a := Grown(rBack, size, null);
      assert a[..nfds] == a[..rBack.Length][..nfds] == rBack[..nfds];
      rBack := a;
    }

    method GrowWriters(size: nat)
      requires Valid() && size == NextSize(eventCount)
      modifies this`wBack
      ensures Valid() && fresh(wBack) && wBack.Length == size
    {
      var a := Grown(wBack, size, null);
      assert a[..nfds] == a[..wBack.Length][..nfds] == wBack[..nfds];
      wBack := a;
    }

    // The second part: the index reaches the file descriptor.
    method GrowIndex(fd: nat, memory: bool) returns (ok: bool)
      requires Valid()
      modifies this`idxplus1
      ensures Valid() && (ok ==> fd < idxplus1.Length) && (memory ==> ok) &&
        (idxplus1 == old(idxplus1) || fresh(idxplus1))
    {
      if fd < idxplus1.Length {
        return true;
      }
      var size := NextSize(idxplus1.Length);
      while size <= fd
        invariant size >= 32 && size >= idxplus1.Length
        decreases fd - size
      {
        size := size * 2;
      }
      if !memory {
        return false;
      }
      var longer := Grown(idxplus1, size, 0);
      LongerIndex(eventSet[..nfds], rBack[..nfds], wBack[..nfds], idxplus1[..], longer[..], want);
      idxplus1 := longer;
      return true;
    }

    // A new slot, at the end.
    method NewSlot(fd: nat)
      requires Valid() && nfds + 1 < eventCount && fd < idxplus1.Length && idxplus1[fd] == 0
      modifies this`nfds, eventSet, rBack, wBack, idxplus1
      ensures nfds == old(nfds) + 1 && ValidBut(old(nfds)) && eventSet[old(nfds)].fd == fd
    {
      AppendSlot(eventSet[..nfds], rBack[..nfds], wBack[..nfds], idxplus1[..], want, fd);
      ghost var slots, rs, ws := eventSet[..nfds], rBack[..nfds], wBack[..nfds];
      var i := nfds;
      nfds := nfds + 1;
      eventSet[i] := Slot(fd, false, false);
      wBack[i] := null;
      rBack[i] := null;
      idxplus1[fd] := i + 1;
      assert eventSet[..nfds] == slots + [Slot(fd, false, false)];
      assert rBack[..nfds] == rs + [null];
      assert wBack[..nfds] == ws + [null];
      assert idxplus1[..] == old(idxplus1[..])[fd := i + 1];
    }

    // The slot of the file descriptor, which may have to be a new one.
    method FindSlot(fd: nat) returns (i: nat)
      requires Valid() && nfds + 1 < eventCount && fd < idxplus1.Length
      modifies this`nfds, eventSet, rBack, wBack, idxplus1
      ensures i < nfds <= eventSet.Length && ValidBut(i) && eventSet[i].fd == fd
    {
      if idxplus1[fd] > 0 {
        i := idxplus1[fd] - 1;
        assert idxplus1[..][fd] > 0;
        assert eventSet[..nfds][i] == eventSet[i];
      } else {
        i := nfds;
        NewSlot(fd);
      }
    }

    // The slot and its back pointers are written.
    method WriteSlot(i: nat, slot: Slot, r: Event?, w: Event?)
      requires Sized() && i < nfds
      modifies eventSet, rBack, wBack
      ensures Sized() && eventSet[..nfds] == old(eventSet[..nfds])[i := slot]
      ensures rBack[..nfds] == old(rBack[..nfds])[i := r] && wBack[..nfds] == old(wBack[..nfds])[i := w]
    {
      eventSet[i] := slot;
      rBack[i] := r;
      wBack[i] := w;
    }

    // The last part of poll_add.
    method Mark(i: nat, ev: Event)
      requires i < nfds <= eventSet.Length && ValidBut(i) && eventSet[i].fd == ev.fd && (ev.read || ev.write)
      modifies this`want, eventSet, rBack, wBack
      ensures Valid() && want == Added(old(want), ev)
    {
      ghost var index := idxplus1[..];
      MarkSlot(eventSet[..nfds], rBack[..nfds], wBack[..nfds], idxplus1[..], want, i, ev);
      WriteSlot(i, Marked(eventSet[i], ev), if ev.read then ev else rBack[i], if ev.write then ev else wBack[i]);
      want := Added(want, ev);
      assert idxplus1[..] == index;
    }

    // poll_add, for an event that is not a signal
    method PollAdd(ev: Event, m1: bool, m2: bool, m3: bool, m4: bool) returns (ok: bool)
      requires Valid()
      modifies this, eventSet, rBack, wBack, idxplus1
      ensures Valid() && want == if ok then Added(old(want), ev) else old(want)
      ensures ok && ev.read ==> ev.fd in want.readers && want.readers[ev.fd] == ev
      ensures ok && ev.write ==> ev.fd in want.writers && want.writers[ev.fd] == ev
      ensures want.readers - {ev.fd} == old(want).readers - {ev.fd}
      ensures want.writers - {ev.fd} == old(want).writers - {ev.fd}
      ensures !ev.read ==> want.readers == old(want).readers
      ensures !ev.write ==> want.writers == old(want).writers
      ensures m1 && m2 && m3 && m4 ==> ok
      ensures (eventSet == old(eventSet) || fresh(eventSet)) && (rBack == old(rBack) || fresh(rBack))
      ensures (wBack == old(wBack) || fresh(wBack)) && (idxplus1 == old(idxplus1) || fresh(idxplus1))
    {
      AddedSays(want, ev);
      ok := Register(ev, m1, m2, m3, m4);
    }

    method Register(ev: Event, m1: bool, m2: bool, m3: bool, m4: bool) returns (ok: bool)
      requires Valid()
      modifies this, eventSet, rBack, wBack, idxplus1
      ensures Valid() && want == if ok then Added(old(want), ev) else old(want)
      ensures m1 && m2 && m3 && m4 ==> ok
      ensures (eventSet == old(eventSet) || fresh(eventSet)) && (rBack == old(rBack) || fresh(rBack))
      ensures (wBack == old(wBack) || fresh(wBack)) && (idxplus1 == old(idxplus1) || fresh(idxplus1))
    {
      if !ev.read && !ev.write {
        return true;
      }
      Check(-1);
      ok := GrowSlots(m1, m2, m3);
      if !ok {
        return;
      }
      ok := GrowIndex(ev.fd, m4);
      if !ok {
        return;
      }
      var i := FindSlot(ev.fd);
      Mark(i, ev);
      Check(-1);
    }

    // The first part of poll_del.
    method Unmark(i: nat, ev: Event)
      requires Valid() && i < nfds <= eventSet.Length && eventSet[i].fd == ev.fd
      modifies this`want, eventSet, rBack, wBack
      ensures want == Removed(old(want), ev) && eventSet[i] == Unmarked(old(eventSet[i]), ev)
      ensures ValidBut(if eventSet[i].pollin || eventSet[i].pollout then -1 else i)
    {
      ghost var index := idxplus1[..];
      UnmarkSlot(eventSet[..nfds], rBack[..nfds], wBack[..nfds], idxplus1[..], want, i, ev);
      assert eventSet[..nfds][i] == eventSet[i];
      WriteSlot(i, Unmarked(eventSet[i], ev), if ev.read then null else rBack[i], if ev.write then null else wBack[i]);
      want := Removed(want, ev);
      assert idxplus1[..] == index;
      assert eventSet[..nfds][i] == eventSet[i];
    }

    // The slot is given up, and the last one moves into its place.
    method Drop(i: nat)
      requires i < nfds <= eventSet.Length && ValidBut(i) && !eventSet[i].pollin && !eventSet[i].pollout
      modifies this`nfds, eventSet, rBack, wBack, idxplus1
      ensures Valid() && nfds == old(nfds) - 1
    {
      ghost var slots, rs, ws := eventSet[..nfds], rBack[..nfds], wBack[..nfds];
      DropSlot(slots, rs, ws, idxplus1[..], want, i);
      ghost var index := FilledIndex(slots, idxplus1[..], i);
      assert slots[i] == eventSet[i] && slots[nfds - 1] == eventSet[nfds - 1];
      Repoint(i);
      FillHole(i);
      assert idxplus1[..] == index;
    }

    // The last slot moves into slot i.
    method FillHole(i: nat)
      requires Sized() && i < nfds
      modifies this`nfds, eventSet, rBack, wBack
      ensures Sized() && nfds == old(nfds) - 1 && eventSet[..nfds] == Filled(old(eventSet[..nfds]), i)
      ensures rBack[..nfds] == Filled(old(rBack[..nfds]), i) && wBack[..nfds] == Filled(old(wBack[..nfds]), i)
    {
      ghost var slots, rs, ws := eventSet[..nfds], rBack[..nfds], wBack[..nfds];
      FilledFromLast(slots, i);
      FilledFromLast(rs, i);
      FilledFromLast(ws, i);
      nfds := nfds - 1;
      assert slots[..nfds] == eventSet[..nfds] && rs[..nfds] == rBack[..nfds] && ws[..nfds] == wBack[..nfds];
      if i != nfds {
        MoveDown(i);
      }
    }

    // The index forgets slot i and leads to it from the descriptor of the last slot.
    method Repoint(i: nat)
      requires i < nfds <= eventSet.Length && eventSet[i].fd < idxplus1.Length
      requires eventSet[nfds - 1].fd < idxplus1.Length
      modifies idxplus1
      ensures idxplus1[..] == FilledIndex(eventSet[..nfds], old(idxplus1[..]), i)
    {
      idxplus1[eventSet[i].fd] := 0;
      assert idxplus1[..] == old(idxplus1[..])[eventSet[i].fd := 0];
      if i != nfds - 1 {
        idxplus1[eventSet[nfds - 1].fd] := i + 1;
      }
    }

    // The slot just behind the last one is copied over slot i.
    method MoveDown(i: nat)
      requires Sized() && i < nfds < eventCount
      modifies eventSet, rBack, wBack
      ensures Sized() && eventSet[..nfds] == old(eventSet[..nfds])[i := old(eventSet[nfds])]
      ensures rBack[..nfds] == old(rBack[..nfds])[i := old(rBack[nfds])] &&
        wBack[..nfds] == old(wBack[..nfds])[i := old(wBack[nfds])]
    {
      eventSet[i] := eventSet[nfds];
      rBack[i] := rBack[nfds];
      wBack[i] := wBack[nfds];
    }

    // poll_del, for an event that is not a signal; its file descriptor has been added before
    method PollDel(ev: Event) returns (ok: bool)
      requires Valid() && (ev.read || ev.write ==> ev.fd < idxplus1.Length)
      modifies this`want, this`nfds, this`failed, eventSet, rBack, wBack, idxplus1
      ensures Valid() && want == Removed(old(want), ev)
      ensures ok <==> (ev.read || ev.write ==> ev.fd in old(want).readers || ev.fd in old(want).writers)
      ensures want.readers == if ev.read then old(want).readers - {ev.fd} else old(want).readers
      ensures want.writers == if ev.write then old(want).writers - {ev.fd} else old(want).writers
    {
      ok := Unregister(ev);
    }

    method Unregister(ev: Event) returns (ok: bool)
      requires Valid() && (ev.read || ev.write ==> ev.fd < idxplus1.Length)
      modifies this`want, this`nfds, this`failed, eventSet, rBack, wBack, idxplus1
      ensures Valid() && want == Removed(old(want), ev)
      ensures ok <==> (ev.read || ev.write ==> Wanted(old(want), ev.fd))
    {
      if !ev.read && !ev.write {
        return true;
      }
      Check(-1);
      assert idxplus1[..][ev.fd] == idxplus1[ev.fd];
      if idxplus1[ev.fd] == 0 {
        NotWanted(eventSet[..nfds], rBack[..nfds], wBack[..nfds], idxplus1[..], want, ev);
        return false;
      }
      var i := idxplus1[ev.fd] - 1;
      assert eventSet[..nfds][i] == eventSet[i];
      Forget(i, ev);
      return true;
    }

    // The slot forgets the event, and is given up if no other one is left in it.
    method Forget(i: nat, ev: Event)
      requires Valid() && i < nfds <= eventSet.Length && eventSet[i].fd == ev.fd
      modifies this`want, this`nfds, this`failed, eventSet, rBack, wBack, idxplus1
      ensures Valid() && want == Removed(old(want), ev)
    {
      Unmark(i, ev);
      var wanted := eventSet[i].pollin || eventSet[i].pollout;
      Check(if wanted then -1 else i);
      if !wanted {
        Drop(i);
        Check(-1);
      }
    }

    // poll_check_ok
    method Check(ghost k: int)
      requires ValidBut(k)
      modifies this`failed
      ensures ValidBut(k)
    {
      var ok := CheckOk(k);
      failed := failed || !ok;
      assert Sized() == old(Sized());
    }

    // Whether every assertion of poll_check_ok holds
    method CheckOk(ghost k: int) returns (ok: bool)
      requires ValidBut(k)
      ensures ok
    {
      ghost var slots, rs, ws, index := eventSet[..nfds], rBack[..nfds], wBack[..nfds], idxplus1[..];
      var f := 0;
      while f < idxplus1.Length
        invariant 0 <= f <= idxplus1.Length
      {
        assert index[f] == idxplus1[f];
        if idxplus1[f] > 0 {
          var i := idxplus1[f] - 1;
          assert slots[i] == eventSet[i] && rs[i] == rBack[i] && ws[i] == wBack[i];
          var good := eventSet[i].fd == f &&
                      (eventSet[i].pollin ==> rBack[i] != null && rBack[i].read && rBack[i].fd == f) &&
                      (eventSet[i].pollout ==> wBack[i] != null && wBack[i].write && wBack[i].fd == f);
          if !good {
            return false;
          }
        }
        f := f + 1;
      }
      var i := 0;
      while i < nfds
        invariant 0 <= i <= nfds
      {
        assert slots[i] == eventSet[i] && index[slots[i].fd] == idxplus1[slots[i].fd];
        if idxplus1[eventSet[i].fd] != i + 1 {
          return false;
        }
        i := i + 1;
      }
      return true;
    }

    // Any run of additions and removals: what is registered at the end is what the
    // operations that succeeded, one after the other, say. An addition fails only for want
    // of memory. A descriptor beyond the index was never added.
    method Run(ops: seq<Op>) returns (oks: seq<bool>)
      requires Valid()
      modifies this, eventSet, rBack, wBack, idxplus1
      ensures Valid() && !failed && |oks| == |ops| && want == Outcome(old(want), ops, oks)
      ensures forall i :: 0 <= i < |ops| && ops[i].Add? && ops[i].memory == Memory(true, true, true, true) ==> oks[i]
    {
      ghost var was := want;
      oks := [];
      DoneFirst(was, ops);
      while |oks| < |ops|
        invariant |oks| <= |ops| && Valid() && Done(was, want, ops, oks)
        invariant (eventSet == old(eventSet) || fresh(eventSet)) && (rBack == old(rBack) || fresh(rBack))
        invariant (wBack == old(wBack) || fresh(wBack)) && (idxplus1 == old(idxplus1) || fresh(idxplus1))
      {
        ghost var before := want;
        var ok := Perform(ops[|oks|]);
        DoneMore(was, before, want, ops, oks, ok);
        oks := oks + [ok];
      }
      DoneAll(was, want, ops, oks);
    }

    method Perform(op: Op) returns (ok: bool)
      requires Valid()
      modifies this, eventSet, rBack, wBack, idxplus1
      ensures Valid() && want == AfterOp(old(want), op, ok)
      ensures op.Add? && op.memory == Memory(true, true, true, true) ==> ok
      ensures (eventSet == old(eventSet) || fresh(eventSet)) && (rBack == old(rBack) || fresh(rBack))
      ensures (wBack == old(wBack) || fresh(wBack)) && (idxplus1 == old(idxplus1) || fresh(idxplus1))
    {
      if op.Add? {
        ok := PollAdd(op.ev, op.memory.slots, op.memory.readers, op.memory.writers, op.memory.index);
      } else if op.ev.fd < idxplus1.Length {
        ok := PollDel(op.ev);
      } else {
        BeyondIndex(idxplus1[..], want, op.ev);
        ok := false;
      }
    }
  }

  // Which of the four reallocs of poll_add succeed.
  datatype Memory = Memory(slots: bool, readers: bool, writers: bool, index: bool)

  datatype Op = Add(ev: Event, memory: Memory) | Del(ev: Event)

  ghost function AfterOp(w: Interest, op: Op, ok: bool): Interest {
    match op
    case Add(ev, _) => if ok then Added(w, ev) else w
    case Del(ev) => Removed(w, ev)
  }

  ghost function Outcome(w: Interest, ops: seq<Op>, oks: seq<bool>): Interest
    requires |ops| == |oks|
    decreases |ops|
  {
    var n := |ops| - 1;
    if ops == [] then w else AfterOp(Outcome(w, ops[..n], oks[..n]), ops[n], oks[n])
  }

  // What the first operations have led to.
  ghost predicate Done(was: Interest, want: Interest, ops: seq<Op>, oks: seq<bool>) {
    // A let expression keeps the verifier from splitting this into parts.
    var done := |oks| <= |ops| && want == Outcome(was, ops[..|oks|], oks) && forall i ::
      0 <= i < |oks| && ops[i].Add? && ops[i].memory == Memory(true, true, true, true) ==> oks[i];
    done
  }

  lemma {:induction false} DoneFirst(was: Interest, ops: seq<Op>)
    ensures Done(was, was, ops, [])
  {
  }

  lemma {:induction false} DoneMore(was: Interest, before: Interest, want: Interest, ops: seq<Op>, oks: seq<bool>,
      ok: bool)
    requires Done(was, before, ops, oks) && |oks| < |ops| && want == AfterOp(before, ops[|oks|], ok)
    requires ops[|oks|].Add? && ops[|oks|].memory == Memory(true, true, true, true) ==> ok
    ensures Done(was, want, ops, oks + [ok])
  {
    assert ops[..|oks| + 1][..|oks|] == ops[..|oks|] && (oks + [ok])[..|oks|] == oks;
  }

  lemma {:induction false} DoneAll(was: Interest, want: Interest, ops: seq<Op>, oks: seq<bool>)
    requires Done(was, want, ops, oks) && |oks| == |ops|
    ensures want == Outcome(was, ops, oks)
    ensures forall i :: 0 <= i < |ops| && ops[i].Add? && ops[i].memory == Memory(true, true, true, true) ==> oks[i]
  {
    assert ops[..|ops|] == ops;
  }

  lemma {:induction false} BeyondIndex(index: seq<nat>, want: Interest, ev: Event)
    requires Covered(index, want) && ev.fd >= |index|
    ensures Removed(want, ev) == want
  {
    assert !Wanted(want, ev.fd);
  }

  lemma {:induction false} NotWanted(slots: seq<Slot>, rs: seq<Event?>, ws: seq<Event?>, index: seq<nat>,
      want: Interest, ev: Event)
    requires Truthful(slots, rs, ws, index, want, -1) && ev.fd < |index| && index[ev.fd] == 0
    ensures !Wanted(want, ev.fd) && Removed(want, ev) == want
  {
    assert !Wanted(want, ev.fd);
  }

  lemma {:induction false} LongerIndex(slots: seq<Slot>, rs: seq<Event?>, ws: seq<Event?>, index: seq<nat>,
      index': seq<nat>, want: Interest)
    requires Truthful(slots, rs, ws, index, want, -1) && |index| <= |index'| && index'[..|index|] == index
    requires forall f :: |index| <= f < |index'| ==> index'[f] == 0
    ensures Truthful(slots, rs, ws, index', want, -1)
  {
    assert forall f {:trigger index'[f]} :: 0 <= f < |index| ==> index'[f] == index'[..|index|][f] == index[f];
  }
}
