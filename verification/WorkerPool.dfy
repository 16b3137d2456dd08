/**
 * Worker threads of the HTTP server: the ring they are kept in, and the hand-off of
 * accepted sockets through locked task queues and wakeup pipes.
 */
module WorkerPool {

  import opened Basics

  // ---------------------------------------------------------------- the ring

  class Evhttp {
    var next: Evhttp?
    var cur: Evhttp?
    constructor ()
      ensures next == null && cur == null
    {
      next, cur := null, null;
    }
  }

  ghost function Members(s: seq<Evhttp>): set<Evhttp> {
    set w | w in s
  }

  // The workers of a server, in a circle, in the order in which they were added.
  ghost predicate Ring(http: Evhttp, s: seq<Evhttp>)
    reads http, Members(s)
  {
    http !in s &&
    (forall i, j {:trigger s[i], s[j]} :: 0 <= i < j < |s| ==> s[i] != s[j]) &&
    (if s == [] then http.next == null && http.cur == null
     else http.next == s[0] && http.cur != null && http.cur in s) &&
    (forall i {:trigger s[i].next} :: 0 <= i < |s| ==> s[i].next == s[After(i, |s|)])
  }

  // evhttp_add_worker: the new worker goes to the end of the ring.
  method AddWorker(http: Evhttp, worker: Evhttp, ghost s: seq<Evhttp>)
    requires Ring(http, s) && worker != http && worker !in s
    modifies http, worker, Members(s)
    ensures Ring(http, s + [worker]) && http.cur == if s == [] then worker else old(http.cur)
  {
    if http.next == null {
      http.next := worker;
      http.cur := worker;
      worker.next := worker;
      return;
    }
    assert s[0].next == s[After(0, |s|)];
    var cur: Evhttp := http.next;
    ghost var i := 0;
    while cur.next != http.next
      invariant 0 <= i < |s| && cur == s[i]
      invariant s[i].next == s[After(i, |s|)]
      decreases |s| - i
    {
      assert s[i + 1].next == s[After(i + 1, |s|)];
      cur := cur.next;
      i := i + 1;
    }
    assert i == |s| - 1;
    cur.next := worker;
    worker.next := http.next;
  }

  // The acceptor steps to the next worker.
  method Advance(http: Evhttp, ghost s: seq<Evhttp>, ghost k: nat)
    requires Ring(http, s) && k < |s| && http.cur == s[k]
    modifies http
    ensures Ring(http, s) && http.cur == s[After(k, |s|)]
  {
    assert s[k].next == s[After(k, |s|)];
    http.cur := http.cur.next;
  }

  // ---------------------------------------------------------------- the hand-off, step by step

  type Socket = nat

  // Where the acceptor is in accept_socket and new_worker_task.
  datatype Acceptor = Waiting | Got(fd: Socket) | Holding(fd: Socket) | Queued | Released | Notified

  // Where a worker is in notify_worker.
  datatype Place = Idle | Woken | Locked | Taken(fd: Socket) | Serving(fd: Socket)

  datatype Owner = Free | ByAcceptor | ByWorker

  // A worker: its queue under its lock, the bytes in its pipe, where it is, and what it
  // has served. lost counts wakeups that could not be written.
  datatype Worker = Worker(lock: Owner, tasks: seq<Socket>, pipe: nat, place: Place, served: seq<Socket>, lost: nat)

  // handed is the history of sockets put in a queue; crashed is set by a worker that
  // takes the first task of an empty queue.
  datatype State = State(workers: seq<Worker>, cur: nat, acceptor: Acceptor, handed: seq<Socket>, crashed: bool)

  datatype Action =
    | Accept(fd: Socket) | Lock | Enqueue | Unlock | Wake(written: bool) | Turn
    | ReadByte(k: nat) | LockTasks(k: nat) | Dequeue(k: nat) | UnlockTasks(k: nat) | Serve(k: nat)

  predicate Enabled(s: State, a: Action) {
    s.cur < |s.workers| &&
    match a
    case Accept(_) => s.acceptor.Waiting?
    case Lock => s.acceptor.Got? && s.workers[s.cur].lock == Free
    case Enqueue => s.acceptor.Holding?
    case Unlock => s.acceptor.Queued?
    case Wake(_) => s.acceptor.Released?
    case Turn => s.acceptor.Notified?
    case ReadByte(k) => k < |s.workers| && s.workers[k].place.Idle? && s.workers[k].pipe > 0
    case LockTasks(k) => k < |s.workers| && s.workers[k].place.Woken? && s.workers[k].lock == Free
    case Dequeue(k) => k < |s.workers| && s.workers[k].place.Locked?
    case UnlockTasks(k) => k < |s.workers| && s.workers[k].place.Taken?
    case Serve(k) => k < |s.workers| && s.workers[k].place.Serving?
  }

  function Put(s: State, k: nat, w: Worker): State
    requires k < |s.workers|
  {
    s.(workers := s.workers[k := w])
  }

  // What each step does.
  function Apply(s: State, a: Action): State
    requires Enabled(s, a)
  {
    match a
    case Accept(fd) => s.(acceptor := Got(fd))
    case Lock => Put(s, s.cur, s.workers[s.cur].(lock := ByAcceptor)).(acceptor := Holding(s.acceptor.fd))
    case Enqueue =>
      Put(s, s.cur, s.workers[s.cur].(tasks := s.workers[s.cur].tasks + [s.acceptor.fd]))
        .(acceptor := Queued, handed := s.handed + [s.acceptor.fd])
    case Unlock => Put(s, s.cur, s.workers[s.cur].(lock := Free)).(acceptor := Released)
    case Wake(written) =>
      (if written then Put(s, s.cur, s.workers[s.cur].(pipe := s.workers[s.cur].pipe + 1))
       else Put(s, s.cur, s.workers[s.cur].(lost := s.workers[s.cur].lost + 1))).(acceptor := Notified)
    case Turn => s.(acceptor := Waiting, cur := After(s.cur, |s.workers|))
    case ReadByte(k) => Put(s, k, s.workers[k].(pipe := s.workers[k].pipe - 1, place := Woken))
    case LockTasks(k) => Put(s, k, s.workers[k].(lock := ByWorker, place := Locked))
    case Dequeue(k) =>
      if s.workers[k].tasks == [] then s.(crashed := true)
      else Put(s, k, s.workers[k].(tasks := s.workers[k].tasks[1..], place := Taken(s.workers[k].tasks[0])))
    case UnlockTasks(k) => Put(s, k, s.workers[k].(lock := Free, place := Serving(s.workers[k].place.fd)))
    case Serve(k) => Put(s, k, s.workers[k].(place := Idle, served := s.workers[k].served + [s.workers[k].place.fd]))
  }

  function Start(n: nat): State {
    State(seq(n, _ => Worker(Free, [], 0, Idle, [], 0)), 0, Waiting, [], false)
  }

  // ---------------------------------------------------------------- what every run keeps

  // The worker that socket number m goes to, with n of them.
  function Whose(m: nat, n: nat): (k: nat)
    requires n > 0
    ensures k < n
  {
    if m == 0 then 0 else After(Whose(m - 1, n), n)
  }

  // The turn goes round: each worker gets every n-th socket.
  lemma {:induction false} WhoseIsModulo(m: nat, n: nat)
    requires n > 0
    ensures Whose(m, n) == m % n
  {
    if m > 0 {
      WhoseIsModulo(m - 1, n);
      NextModulo(m - 1, n);
    }
  }

  lemma {:induction false} NextModulo(m: nat, n: nat)
    requires n > 0
    ensures After(m % n, n) == (m + 1) % n
  {
    var q, k := m / n, m % n;
    var q', k' := (m + 1) / n, (m + 1) % n;
    assert m == n * q + k && m + 1 == n * q' + k';
    if k + 1 == n {
      assert n * (q' - q - 1) == n * q' - n * q - n;
      Multiple(q' - q - 1, n);
    } else {
      assert n * (q' - q) == n * q' - n * q;
      Multiple(q' - q, n);
    }
  }

  lemma {:induction false} Multiple(a: int, n: nat)
    ensures a > 0 ==> n * a >= n
    ensures a < 0 ==> n * a + n <= 0
    decreases if a < 0 then -a else a
  {
    if a > 1 {
      Multiple(a - 1, n);
      assert n * a == n * (a - 1) + n;
    } else if a < -1 {
      Multiple(a + 1, n);
      assert n * a == n * (a + 1) - n;
    }
  }

  // The sockets of the history that go to worker k.
  function Share(handed: seq<Socket>, k: nat, n: nat): seq<Socket>
    requires n > 0
  {
    if handed == [] then []
    else
      var m := |handed| - 1;
      Share(handed[..m], k, n) + if Whose(m, n) == k then [handed[m]] else []
  }

  function InHand(w: Worker): seq<Socket> {
    match w.place
    case Taken(fd) => [fd]
    case Serving(fd) => [fd]
    case _ => []
  }

  // Whether the acceptor has the lock of worker k, or owes it a wakeup.
  predicate HasLock(s: State, k: nat) {
    s.cur == k && (s.acceptor.Holding? || s.acceptor.Queued?)
  }

  predicate OwesWakeup(s: State, k: nat) {
    s.cur == k && (s.acceptor.Queued? || s.acceptor.Released?)
  }

  // What holds of a worker that is to get the sockets of share: a task for each wakeup
  // written, lost, read but not used, or owed; its sockets in order; and who has its lock.
  ghost predicate Fine(w: Worker, share: seq<Socket>, held: bool, owed: bool) {
    |w.tasks| == w.pipe + w.lost + (if w.place.Woken? || w.place.Locked? then 1 else 0) + (if owed then 1 else 0) &&
    w.served + InHand(w) + w.tasks == share &&
    (w.lock == ByWorker <==> w.place.Locked? || w.place.Taken?) &&
    (w.lock == ByAcceptor <==> held)
  }

  ghost predicate WorkerOk(s: State, k: nat)
    requires k < |s.workers|
  {
    Fine(s.workers[k], Share(s.handed, k, |s.workers|), HasLock(s, k), OwesWakeup(s, k))
  }

  // The acceptor stands at the worker whose turn it is.
  ghost predicate InTurn(s: State) {
    s.cur < |s.workers| &&
    if s.acceptor.Queued? || s.acceptor.Released? || s.acceptor.Notified?
    then |s.handed| > 0 && s.cur == Whose(|s.handed| - 1, |s.workers|)
    else s.cur == Whose(|s.handed|, |s.workers|)
  }

  ghost predicate Inv(s: State) {
    !s.crashed && InTurn(s) && forall k {:trigger s.workers[k]} :: 0 <= k < |s.workers| ==> WorkerOk(s, k)
  }

  lemma {:induction false} StartIsFine(n: nat)
    requires n > 0
    ensures Inv(Start(n))
  {
    var s := Start(n);
    forall k | 0 <= k < |s.workers|
      ensures WorkerOk(s, k)
    {
      assert s.workers[k] == Worker(Free, [], 0, Idle, [], 0);
    }
  }

  // ---- one worker, step by step

  lemma {:induction false} ShareGrows(h: seq<Socket>, fd: Socket, k: nat, n: nat)
    requires n > 0
    ensures Share(h + [fd], k, n) == Share(h, k, n) + if Whose(|h|, n) == k then [fd] else []
  {
    assert (h + [fd])[..|h|] == h;
  }

  lemma {:induction false} EnqueueKeeps(w: Worker, share: seq<Socket>, fd: Socket)
    requires Fine(w, share, true, false)
    ensures Fine(w.(tasks := w.tasks + [fd]), share + [fd], true, true)
  {
    assert w.served + InHand(w) + (w.tasks + [fd]) == w.served + InHand(w) + w.tasks + [fd];
  }

  lemma {:induction false} DequeueKeeps(w: Worker, share: seq<Socket>, held: bool, owed: bool)
    requires Fine(w, share, held, owed) && w.place.Locked?
    ensures w.tasks != [] && Fine(w.(tasks := w.tasks[1..], place := Taken(w.tasks[0])), share, held, owed)
  {
    assert w.served + [w.tasks[0]] + w.tasks[1..] == w.served + [] + w.tasks;
  }

  lemma {:induction false} ServeKeeps(w: Worker, share: seq<Socket>, held: bool, owed: bool)
    requires Fine(w, share, held, owed) && w.place.Serving?
    ensures Fine(w.(place := Idle, served := w.served + [w.place.fd]), share, held, owed)
  {
    assert w.served + [w.place.fd] + [] + w.tasks == w.served + [w.place.fd] + w.tasks;
  }

  lemma {:induction false} WorkerStepKeeps(s: State, a: Action, k: nat)
    requires Inv(s) && Enabled(s, a) && k < |s.workers|
    requires a.ReadByte? || a.LockTasks? || a.Dequeue? || a.UnlockTasks? || a.Serve?
    ensures |Apply(s, a).workers| == |s.workers| && WorkerOk(Apply(s, a), k)
  {
    var share, held, owed := Share(s.handed, k, |s.workers|), HasLock(s, k), OwesWakeup(s, k);
    assert WorkerOk(s, k);
    if a.k == k {
      if a.Dequeue? {
        DequeueKeeps(s.workers[k], share, held, owed);
      } else if a.Serve? {
        ServeKeeps(s.workers[k], share, held, owed);
      }
    }
  }

  lemma {:induction false} AcceptorStepKeeps(s: State, a: Action, k: nat)
    requires Inv(s) && Enabled(s, a) && k < |s.workers|
    requires a.Accept? || a.Lock? || a.Enqueue? || a.Unlock? || a.Wake? || a.Turn?
    ensures |Apply(s, a).workers| == |s.workers| && WorkerOk(Apply(s, a), k)
  {
    assert WorkerOk(s, k);
    if a.Enqueue? {
      ShareGrows(s.handed, s.acceptor.fd, k, |s.workers|);
      if k == s.cur {
        EnqueueKeeps(s.workers[k], Share(s.handed, k, |s.workers|), s.acceptor.fd);
      }
    }
  }

  lemma {:induction false} StepKeeps(s: State, a: Action)
    requires Inv(s) && Enabled(s, a)
    ensures Inv(Apply(s, a)) && |Apply(s, a).workers| == |s.workers|
  {
    var t := Apply(s, a);
    TurnKeeps(s, a);
    if a.Dequeue? {
      assert WorkerOk(s, a.k);
    }
    forall k | 0 <= k < |t.workers|
      ensures WorkerOk(t, k)
    {
      if a.ReadByte? || a.LockTasks? || a.Dequeue? || a.UnlockTasks? || a.Serve? {
        WorkerStepKeeps(s, a, k);
      } else {
        AcceptorStepKeeps(s, a, k);
      }
    }
  }

  lemma {:induction false} TurnKeeps(s: State, a: Action)
    requires InTurn(s) && Enabled(s, a)
    ensures InTurn(Apply(s, a)) && |Apply(s, a).workers| == |s.workers|
  {
  }

  // ---------------------------------------------------------------- runs

  // A run: the states that a sequence of actions leads through, each possible in its turn.
  ghost predicate Possible(s: State, actions: seq<Action>)
    decreases |actions|
  {
    actions == [] || (Enabled(s, actions[0]) && Possible(Apply(s, actions[0]), actions[1..]))
  }

  ghost function Reached(s: State, actions: seq<Action>): State
    requires Possible(s, actions)
    decreases |actions|
  {
    if actions == [] then s else Reached(Apply(s, actions[0]), actions[1..])
  }

  lemma {:induction false} RunKeeps(s: State, actions: seq<Action>)
    requires Inv(s) && Possible(s, actions)
    ensures Inv(Reached(s, actions)) && |Reached(s, actions).workers| == |s.workers|
    decreases |actions|
  {
    if actions != [] {
      StepKeeps(s, actions[0]);
      RunKeeps(Apply(s, actions[0]), actions[1..]);
    }
  }

  // ---------------------------------------------------------------- who gets what

  // The numbers below m of the sockets that go to worker k.
  function Numbers(m: nat, k: nat, n: nat): seq<nat>
    requires n > 0
  {
    if m == 0 then [] else Numbers(m - 1, k, n) + if Whose(m - 1, n) == k then [m - 1] else []
  }

  lemma {:induction false} NumbersAreAll(m: nat, k: nat, n: nat)
    requires n > 0
    ensures forall i :: i in Numbers(m, k, n) <==> 0 <= i < m && i % n == k
    ensures forall i, j {:trigger Numbers(m, k, n)[i], Numbers(m, k, n)[j]} ::
              0 <= i < j < |Numbers(m, k, n)| ==> Numbers(m, k, n)[i] < Numbers(m, k, n)[j]
  {
    if m > 0 {
      WhoseIsModulo(m - 1, n);
      NumbersAreAll(m - 1, k, n);
      var less := Numbers(m - 1, k, n);
      assert forall i :: 0 <= i < |less| ==> less[i] in less;
    }
  }

  // The history read at the given numbers.
  ghost predicate ReadAt(share: seq<Socket>, h: seq<Socket>, numbers: seq<nat>) {
    |share| == |numbers| &&
    forall j {:trigger share[j]} {:trigger numbers[j]} :: 0 <= j < |share| ==>
      numbers[j] < |h| && share[j] == h[numbers[j]]
  }

  lemma {:induction false} ShareByNumbers(h: seq<Socket>, k: nat, n: nat)
    requires n > 0
    ensures ReadAt(Share(h, k, n), h, Numbers(|h|, k, n))
  {
    if h != [] {
      var m := |h| - 1;
      var less := h[..m];
      ShareByNumbers(less, k, n);
      ReadMore(Share(less, k, n), less, Numbers(m, k, n), h[m], Whose(m, n) == k);
      assert less + [h[m]] == h;
    }
  }

  lemma {:induction false} ReadMore(share: seq<Socket>, h: seq<Socket>, numbers: seq<nat>, fd: Socket, more: bool)
    requires ReadAt(share, h, numbers)
    ensures ReadAt(share + if more then [fd] else [], h + [fd], numbers + if more then [|h|] else [])
  {
  }

  // How often the turn has gone all the way round.
  function Rounds(m: nat, n: nat): nat
    requires n > 0
  {
    if m == 0 then 0 else Rounds(m - 1, n) + if Whose(m, n) == 0 then 1 else 0
  }

  lemma {:induction false} NumbersCount(m: nat, k: nat, n: nat)
    requires k < n
    ensures |Numbers(m, k, n)| == Rounds(m, n) + if k < Whose(m, n) then 1 else 0
  {
    if m > 0 {
      NumbersCount(m - 1, k, n);
    }
  }

  // The loads of any two workers differ by at most one.
  lemma {:induction false} FairShares(h: seq<Socket>, j: nat, k: nat, n: nat)
    requires j < n && k < n
    ensures |Share(h, j, n)| <= |Share(h, k, n)| + 1
  {
    ShareByNumbers(h, j, n);
    ShareByNumbers(h, k, n);
    NumbersCount(|h|, j, n);
    NumbersCount(|h|, k, n);
  }

  // ---------------------------------------------------------------- what every run promises

  // A worker that has read a wakeup byte finds a task when it gets the lock.
  lemma {:induction false} WokenFindsTask(s: State, k: nat)
    requires Inv(s) && k < |s.workers| && (s.workers[k].place.Woken? || s.workers[k].place.Locked?)
    ensures s.workers[k].tasks != []
  {
    assert WorkerOk(s, k);
  }

  // In every interleaving no worker crashes, what a worker has served is the beginning
  // of its share, in order, and what it has not is in its hands or in its queue.
  lemma {:induction false} EveryRun(n: nat, actions: seq<Action>, k: nat)
    requires n > 0 && Possible(Start(n), actions) && k < n
    ensures var s := Reached(Start(n), actions);
            !s.crashed && |s.workers| == n &&
            s.workers[k].served + InHand(s.workers[k]) + s.workers[k].tasks == Share(s.handed, k, n)
  {
    StartIsFine(n);
    RunKeeps(Start(n), actions);
    assert WorkerOk(Reached(Start(n), actions), k);
  }

  // Nothing is under way.
  ghost predicate Quiescent(s: State) {
    s.acceptor.Waiting? &&
    forall k {:trigger s.workers[k]} :: 0 <= k < |s.workers| ==>
      s.workers[k].place.Idle? && s.workers[k].pipe == 0
  }

  // Once nothing is under way, a worker is left with one socket, the latest of its share,
  // for each wakeup it has lost; it has served its whole share, socket number i at its
  // place in the order, exactly if it has lost none.
  lemma {:induction false} AllServed(n: nat, actions: seq<Action>, k: nat)
    requires n > 0 && Possible(Start(n), actions) && k < n && Quiescent(Reached(Start(n), actions))
    ensures var s := Reached(Start(n), actions);
            |s.workers| == n && |s.workers[k].tasks| == s.workers[k].lost &&
            s.workers[k].served + s.workers[k].tasks == Share(s.handed, k, n) &&
            (s.workers[k].served == Share(s.handed, k, n) <==> s.workers[k].lost == 0) &&
            ReadAt(s.workers[k].served + s.workers[k].tasks, s.handed, Numbers(|s.handed|, k, n))
  {
    EveryRun(n, actions, k);
    StartIsFine(n);
    RunKeeps(Start(n), actions);
    var s := Reached(Start(n), actions);
    assert WorkerOk(s, k);
    assert s.workers[k].place.Idle?;
    assert s.workers[k].served + [] + s.workers[k].tasks == s.workers[k].served + s.workers[k].tasks;
    assert |s.workers[k].served + s.workers[k].tasks| == |s.workers[k].served| + s.workers[k].lost;
    ShareByNumbers(s.handed, k, n);
  }

  // A run that begins with one more step.
  lemma {:induction false} RunOn(s: State, a: Action, rest: seq<Action>)
    requires Enabled(s, a) && Possible(Apply(s, a), rest)
    ensures Possible(s, [a] + rest) && Reached(s, [a] + rest) == Reached(Apply(s, a), rest)
  {
    assert ([a] + rest)[1..] == rest;
  }

  // Three steps in a row.
  lemma {:induction false} RunThree(s: State, a: Action, b: Action, c: Action, rest: seq<Action>)
    requires Enabled(s, a) && Enabled(Apply(s, a), b) && Enabled(Apply(Apply(s, a), b), c)
    requires Possible(Apply(Apply(Apply(s, a), b), c), rest)
    ensures Possible(s, [a, b, c] + rest)
    ensures Reached(s, [a, b, c] + rest) == Reached(Apply(Apply(Apply(s, a), b), c), rest)
  {
    var t := Apply(s, a);
    RunOn(Apply(t, b), c, rest);
    RunOn(t, b, [c] + rest);
    RunOn(s, a, [b] + ([c] + rest));
    assert [a, b, c] + rest == [a] + ([b] + ([c] + rest));
  }

  // The acceptor has put a socket in the queue of the only worker, and holds its lock.
  function Handed(fd: Socket): State {
    State([Worker(ByAcceptor, [fd], 0, Idle, [], 0)], 0, Queued, [fd], false)
  }

  lemma {:induction false} HandsOver(fd: Socket)
    ensures Enabled(Start(1), Accept(fd)) && Enabled(Apply(Start(1), Accept(fd)), Lock)
    ensures var s := Apply(Apply(Start(1), Accept(fd)), Lock); Enabled(s, Enqueue) && Apply(s, Enqueue) == Handed(fd)
  {
    assert Start(1).workers == [Worker(Free, [], 0, Idle, [], 0)];
    var s := Apply(Apply(Start(1), Accept(fd)), Lock);
    assert s.workers == [Worker(ByAcceptor, [], 0, Idle, [], 0)];
    assert [] + [fd] == [fd];
    assert Apply(s, Enqueue).workers == Handed(fd).workers;
  }

  // One worker, one socket and one wakeup that could not be written: at rest the socket is
  // still in the queue.
  lemma {:induction false} LostWakeup(fd: Socket)
    ensures var actions := [Accept(fd), Lock, Enqueue] + ([Unlock, Wake(false), Turn] + []);
            Possible(Start(1), actions) &&
            var s := Reached(Start(1), actions);
            Quiescent(s) && s.handed == [fd] && s.workers == [Worker(Free, [fd], 0, Idle, [], 1)]
  {
    HandsOver(fd);
    RunThree(Handed(fd), Unlock, Wake(false), Turn, []);
    RunThree(Start(1), Accept(fd), Lock, Enqueue, [Unlock, Wake(false), Turn] + []);
  }
}
