/**
 * The resolver: lookups carried by requests in two rings, one in flight and one
 * waiting, through replies, timeouts, search retries, suspension and resumption.
 */
module Resolver {
  import opened Basics
  import opened DnsRing

  const NO_ID: nat := 0xffff
  const MAX_REISSUES: nat := 1
  const MAX_RETRANSMITS: nat := 3

  // ---------------------------------------------------------------- who holds which lookup

  // What is known of the lookups: those accepted, those whose callback has been called, in
  // order, those whose callback will use a freed nameserver, and whether one has.
  datatype Ledger = Ledger(accepted: set<nat>, fired: seq<nat>, stale: set<nat>, dangling: bool)

  // Every accepted lookup has fired its callback or is held by exactly one request; a
  // request x that is about to be freed holds nothing any more.
  ghost predicate Balanced(live: set<Request>, x: Request?, fired: seq<nat>, accepted: set<nat>) {
    (forall r, q :: r in live && q in live && r != q && r != x && q != x ==> r.lookup != q.lookup) &&
    (forall r :: r in live && r != x ==> r.lookup in accepted && r.lookup !in fired) &&
    (forall i, j :: 0 <= i < j < |fired| ==> fired[i] != fired[j]) &&
    (forall id :: id in fired ==> id in accepted) &&
    (forall id :: id in accepted && id !in fired ==> exists r :: r in live && r != x && r.lookup == id)
  }

  // The probe of a nameserver that has been freed.
  predicate Stale(r: Request, freed: set<nat>) {
    r.probe.Some? && r.probe.value in freed
  }

  // The stale lookups are those of the probes of freed nameservers, and a freed nameserver
  // has been used exactly if the callback of one of them has been called.
  ghost predicate Marked(live: set<Request>, g: Ledger, servers: set<nat>, freed: set<nat>) {
    (forall r {:trigger Stale(r, freed)} :: r in live ==> (r.lookup in g.stale <==> Stale(r, freed))) &&
    (forall r {:trigger Stale(r, freed)} {:trigger Stale(r, servers)} ::
      r in live && r.probe.Some? ==> Stale(r, servers) || Stale(r, freed)) &&
    servers !! freed && g.stale <= g.accepted &&
    (g.dangling <==> exists id {:trigger id in g.stale} :: id in g.stale && id in g.fired)
  }

  lemma {:induction false} Fires(live: set<Request>, req: Request, fired: seq<nat>, accepted: set<nat>)
    requires Balanced(live, null, fired, accepted) && req in live
    ensures Balanced(live, req, fired + [req.lookup], accepted)
  {
    forall id | id in accepted && id !in fired + [req.lookup]
      ensures exists r :: r in live && r != req && r.lookup == id
    {
      assert id !in fired;
      var r :| r in live && r.lookup == id;
      assert r != req;
    }
  }

  lemma {:induction false} FiresMarked(live: set<Request>, req: Request, g: Ledger, servers: set<nat>, freed: set<nat>)
    requires Marked(live, g, servers, freed) && req in live
    ensures var g' := g.(fired := g.fired + [req.lookup], dangling := g.dangling || Stale(req, freed));
      Marked(live, g', servers, freed)
  {
    var fired := g.fired + [req.lookup];
    if id :| id in g.stale && id in g.fired {
      assert id in fired;
    }
    if Stale(req, freed) {
      assert req.lookup in g.stale && req.lookup in fired;
    }
  }

  lemma {:induction false} Succeeds(live: set<Request>, req: Request, heir: Request, fired: seq<nat>,
      accepted: set<nat>)
    requires Balanced(live, null, fired, accepted) && req in live && heir !in live && heir.lookup == req.lookup
    ensures Balanced(live + {heir}, req, fired, accepted)
  {
    forall id | id in accepted && id !in fired
      ensures exists r :: r in live + {heir} && r != req && r.lookup == id
    {
      var r :| r in live && r.lookup == id;
      if r == req {
        assert heir in live + {heir} && heir != req && heir.lookup == id;
      } else {
        assert r in live + {heir};
      }
    }
  }

  lemma {:induction false} Dies(live: set<Request>, req: Request, fired: seq<nat>, accepted: set<nat>)
    requires Balanced(live, req, fired, accepted)
    ensures Balanced(live - {req}, null, fired, accepted)
  {
    forall id | id in accepted && id !in fired
      ensures exists r :: r in live - {req} && r.lookup == id
    {
      var r :| r in live && r != req && r.lookup == id;
      assert r in live - {req};
    }
  }

  lemma {:induction false} Accepts(live: set<Request>, x: Request?, req: Request, fired: seq<nat>, accepted: set<nat>)
    requires Balanced(live, x, fired, accepted) && req !in live && req != x && req.lookup !in accepted
    ensures Balanced(live + {req}, x, fired, accepted + {req.lookup})
  {
    forall id | id in accepted + {req.lookup} && id !in fired
      ensures exists r :: r in live + {req} && r != x && r.lookup == id
    {
      if id == req.lookup {
        assert req in live + {req};
      } else {
        var r :| r in live && r != x && r.lookup == id;
        assert r in live + {req};
      }
    }
  }

  // Leaving and joining: who joins takes over a lookup, or brings one that is not stale.
  lemma {:induction false} LeavesMarked(live: set<Request>, req: Request, g: Ledger, servers: set<nat>, freed: set<nat>)
    requires Marked(live, g, servers, freed)
    ensures Marked(live - {req}, g, servers, freed)
  {
  }

  lemma {:induction false} HeirMarked(live: set<Request>, req: Request, heir: Request, g: Ledger, servers: set<nat>,
      freed: set<nat>)
    requires Marked(live, g, servers, freed) && req in live && heir.lookup == req.lookup && heir.probe == req.probe
    ensures Marked(live + {heir}, g, servers, freed)
  {
    assert Stale(heir, freed) == Stale(req, freed) && Stale(heir, servers) == Stale(req, servers);
  }

  lemma {:induction false} NewMarked(live: set<Request>, req: Request, g: Ledger, servers: set<nat>, freed: set<nat>)
    requires Marked(live, g, servers, freed) && req.lookup !in g.accepted
    requires req.probe.Some? ==> req.probe.value in servers
    ensures Marked(live + {req}, g.(accepted := g.accepted + {req.lookup}), servers, freed)
  {
  }

  // The lookups of those that probe one of the servers.
  ghost function Probing(live: set<Request>, servers: set<nat>): set<nat> {
    set r | r in live && Stale(r, servers) :: r.lookup
  }

  lemma {:induction false} FreesMarked(live: set<Request>, g: Ledger, servers: set<nat>, freed: set<nat>)
    requires Marked(live, g, servers, freed) && Balanced(live, null, g.fired, g.accepted)
    ensures Marked(live, g.(stale := g.stale + Probing(live, servers)), {}, freed + servers)
  {
    var stale := g.stale + Probing(live, servers);
    forall r | r in live
      ensures r.lookup in stale <==> Stale(r, freed + servers)
    {
      assert Stale(r, freed + servers) <==> Stale(r, freed) || Stale(r, servers);
      if r.lookup in Probing(live, servers) {
        var q :| q in live && Stale(q, servers) && q.lookup == r.lookup;
        assert q == r;
      }
    }
    forall id | id in Probing(live, servers)
      ensures id in g.accepted && id !in g.fired
    {
      var q :| q in live && Stale(q, servers) && q.lookup == id;
    }
    if id :| id in stale && id in g.fired {
      assert id in g.stale;
    }
    if id :| id in g.stale && id in g.fired {
      assert id in stale;
    }
  }

  lemma {:induction false} MembersWithout(s: seq<Request>, k: nat)
    requires k < |s| && Distinct(s)
    ensures Members(Without(s, k)) == Members(s) - {s[k]}
  {
    WithoutOne(s, k);
    forall r | r in s && r != s[k]
      ensures r in Without(s, k)
    {
      var i :| 0 <= i < |s| && s[i] == r;
      assert r == if i < k then Without(s, k)[i] else Without(s, k)[i - 1];
    }
  }

  lemma WithoutFirst(s: seq<Request>)
    requires s != []
    ensures Without(s, 0) == s[1..]
  {
  }

  // A lookup as a program asks for it; built says whether its packet can be made.
  datatype Ask = Ask(pointer: bool, search: Option<Search>, built: bool)

  // What can happen: a call for a lookup, a packet, a timeout, a probe, a new
  // nameserver, suspension and resumption.
  datatype Step =
    | Ask(ask: Ask)
    | Packet(id: nat, flags: nat, answered: bool, built: bool, asks: seq<Ask>)
    | Late(turns: nat, asks: seq<Ask>)
    | Probe(ns: nat, built: bool)
    | AddServer(ns: nat)
    | Suspend
    | Resume

  datatype Error = Truncated | Unknown | Format | ServerFailed | NotExist | NotImplemented | Refused
  datatype Reply = Answer | Failure(error: Error)

  // What reply_handle makes of the flags of a reply, and of whether it has an answer.
  function ReplyOf(flags: nat, answered: bool): Reply {
    var truncated, code := flags / 0x200 % 2 == 1, flags % 16;
    if !truncated && code == 0 && answered then Answer
    else if truncated then Failure(Truncated)
    else if code == 1 then Failure(Format)
    else if code == 2 then Failure(ServerFailed)
    else if code == 3 then Failure(NotExist)
    else if code == 4 then Failure(NotImplemented)
    else if code == 5 then Failure(Refused)
    else Failure(Unknown)
  }

  // Bit 9 says that the reply is truncated, and the last four bits are its code.
  lemma ReplyBits(high: nat, truncated: bool, middle: nat, code: nat, answered: bool)
    requires middle < 32 && code < 16
    ensures ReplyOf(high * 1024 + (if truncated then 512 else 0) + middle * 16 + code, answered) ==
      if truncated then Failure(Truncated)
      else if code == 0 then if answered then Answer else Failure(Unknown)
      else if code == 1 then Failure(Format)
      else if code == 2 then Failure(ServerFailed)
      else if code == 3 then Failure(NotExist)
      else if code == 4 then Failure(NotImplemented)
      else if code == 5 then Failure(Refused)
      else Failure(Unknown)
  {
    var bit := if truncated then 1 else 0;
    var flags := 1024 * high + 512 * bit + 16 * middle + code;
    assert flags == 512 * (2 * high + bit) + (16 * middle + code) && flags / 512 == 2 * high + bit;
    assert flags == 16 * (64 * high + 32 * bit + middle) + code && flags % 16 == code;
    assert (2 * high + bit) % 2 == bit;
  }

  // Whether a search that has failed once more has a name left: another domain, or the
  // name as it is.
  predicate MoreNames(search: Search) {
    search.index + 1 < search.domains || !search.dotted
  }

  // A set of one server.
  lemma Single(s: set<nat>)
    requires |s| == 1
    ensures forall a, b :: a in s && b in s ==> a == b
  {
    var a :| a in s;
    assert |s - {a}| == 0;
  }

  // At most one callback has been called since.
  predicate OnceMore(was: seq<nat>, fired: seq<nat>) {
    fired == was || (was < fired && |fired| == |was| + 1)
  }

  // Whether a failed request leaves its lookup to another one.
  predicate GoesOn(search: Option<Search>, pointer: bool) {
    search.Some? && !pointer && MoreNames(search.value)
  }

  // The requests in flight have been joined by the first of those waiting, in their order.
  ghost predicate InTurn(f: seq<Request>, w: seq<Request>, f': seq<Request>, w': seq<Request>) {
    exists k :: 0 <= k <= |w| && f' == f + w[..k] && w' == w[k..]
  }

  lemma {:induction false} NextInTurn(f: seq<Request>, w: seq<Request>, f': seq<Request>, w': seq<Request>)
    requires InTurn(f, w, f', w') && w' != []
    ensures InTurn(f, w, f' + [w'[0]], w'[1..])
  {
    var k :| 0 <= k <= |w| && f' == f + w[..k] && w' == w[k..];
    assert w[..k + 1] == w[..k] + [w[k]];
    assert f' + [w'[0]] == f + w[..k + 1];
    assert w'[1..] == w[k + 1..];
  }

  lemma NoneInTurn(f: seq<Request>, w: seq<Request>)
    ensures InTurn(f, w, f, w)
  {
    assert f == f + w[..0] && w == w[0..];
  }

  // A ring starts anywhere: the last request may as well be the first.
  lemma Rotated(s: seq<Request>, req: Request)
    requires Ring(if s == [] then req else s[0], s + [req])
    ensures Ring(req, [req] + s)
  {
    var t, u := s + [req], [req] + s;
    var n := |t|;
    forall i | 0 <= i < n
      ensures u[i].next == u[After(i, n)] && u[i].prev == u[Before(i, n)]
    {
      var j := if i == 0 then n - 1 else i - 1;
      assert u[i] == t[j];
      assert t[j].next == t[After(j, n)] && t[j].prev == t[Before(j, n)];
    }
    forall i, j | 0 <= i < j < n
      ensures u[i] != u[j]
    {
      assert u[i] == t[if i == 0 then n - 1 else i - 1] && u[j] == t[j - 1];
    }
  }

  // The first i requests of s, the last of them first.
  ghost function Back(s: seq<Request>, i: nat): (b: seq<Request>)
    requires i <= |s|
    ensures |b| == i
  {
    if i == 0 then [] else [s[i - 1]] + Back(s, i - 1)
  }

  // They are reversed.
  lemma {:induction false} BackAt(s: seq<Request>, i: nat, k: nat)
    requires k < i <= |s|
    ensures Back(s, i)[k] == s[i - 1 - k]
    decreases i
  {
    if k > 0 {
      BackAt(s, i - 1, k - 1);
    }
  }

  lemma {:induction false} BackHolds(s: seq<Request>, i: nat)
    requires i <= |s|
    ensures Members(Back(s, i)) == Members(s[..i])
    decreases i
  {
    if i > 0 {
      BackHolds(s, i - 1);
      assert s[..i] == s[..i - 1] + [s[i - 1]];
      MembersConcat(s[..i - 1], [s[i - 1]]);
      MembersConcat([s[i - 1]], Back(s, i - 1));
    }
  }

  lemma MembersConcat(a: seq<Request>, b: seq<Request>)
    ensures Members(a + b) == Members(a) + Members(b)
  {
  }

  lemma {:induction false} BackMembers(s: seq<Request>, w: seq<Request>, i: nat)
    requires i < |s| && Distinct(s) && Members(s) !! Members(w)
    ensures s[i] !in Back(s, i) + w && forall j {:trigger s[j]} :: i <= j < |s| ==> s[j] !in Members(Back(s, i) + w)
    ensures Members(Back(s, i) + w) <= Members(s) + Members(w)
  {
    BackHolds(s, i);
    forall j | i <= j < |s|
      ensures s[j] !in Back(s, i) + w
    {
      assert s[j] in Back(s, i) <==> s[j] in Members(Back(s, i));
      assert s[j] in Members(s);
    }
    MembersConcat(Back(s, i), w);
    MembersConcat(s[..i], s[i..]);
    assert s == s[..i] + s[i..];
  }

  lemma {:induction false} BackAll(s: seq<Request>, w: seq<Request>)
    ensures Members(Back(s, |s|) + w) == Members(s) + Members(w)
  {
    BackHolds(s, |s|);
    assert s[..|s|] == s;
    MembersConcat(Back(s, |s|), w);
  }

  // ---------------------------------------------------------------- the resolver

  class Resolver {
    var reqHead: Request?
    var waitingHead: Request?
    ghost var inflight: seq<Request>
    ghost var waiting: seq<Request>
    var requestsInflight: int
    var requestsWaiting: int
    const maxInflight: nat
    var servers: set<nat>      // a number stands for one allocation of a nameserver
    var freed: set<nat>        // nameservers of the past
    var up: set<nat>
    var good: int
    var aborted: bool          // abort has ended the program
    var dangling: bool         // a freed nameserver has been used
    var stranded: bool         // a null nameserver has been used
    ghost var stale: set<nat>  // the lookups whose callback uses a freed nameserver
    var nextLookup: nat
    ghost var accepted: set<nat>
    ghost var fired: seq<nat>

    ghost function Live(): set<Request>
      reads this`inflight, this`waiting
    {
      Members(inflight) + Members(waiting)
    }

    ghost predicate Rings()
      reads this`reqHead, this`waitingHead, this`inflight, this`waiting, Live()`next, Live()`prev
    {
      // A let expression keeps the verifier from splitting the invariant into parts.
      var rings := Ring(reqHead, inflight) && Ring(waitingHead, waiting) && Members(inflight) !! Members(waiting);
      rings
    }

    // Requests in flight have a nameserver and an identity.
    ghost predicate Placed()
      reads this`inflight, this`waiting, this`servers, Live()`ns, Live()`transId
    {
      PlacedAll(inflight)
    }

    ghost predicate PlacedAll(s: seq<Request>)
      reads this`servers, Members(s)`ns, Members(s)`transId
    {
      forall i {:trigger s[i]} :: 0 <= i < |s| ==> Serves(s[i].ns) && s[i].transId != NO_ID
    }

    // A nameserver that is there to be used.
    predicate Serves(ns: Option<nat>)
      reads this`servers
    {
      ns.Some? && ns.value in servers
    }

    ghost predicate Valid()
      reads this, Live()
    {
      // A let expression keeps the verifier from splitting the invariant into parts.
      var valid := Rings() && Placed() && !aborted && up <= servers && good == |up| &&
                   requestsInflight == |inflight| && requestsWaiting == |waiting|;
      valid
    }

    ghost predicate Settled(x: Request?)
      reads this`inflight, this`waiting, this`fired, this`accepted, this`stale, this`dangling, this`servers,
        this`freed, this`nextLookup
    {
      // A let expression keeps the verifier from splitting the ledger into parts.
      var settled := Balanced(Live(), x, fired, accepted) &&
                     Marked(Live(), Ledger(accepted, fired, stale, dangling), servers, freed) &&
                     forall id :: id in accepted ==> id < nextLookup;
      settled
    }

    constructor (maxInflight: nat)
      ensures Valid() && Settled(null) && inflight == waiting == [] && servers == {} && freed == {}
      ensures accepted == stale == {} && fired == [] && nextLookup == 0 && !dangling && !stranded
      ensures this.maxInflight == maxInflight
    {
      this.maxInflight := maxInflight;
      reqHead, waitingHead, inflight, waiting := null, null, [], [];
      requestsInflight, requestsWaiting := 0, 0;
      servers, freed, up, good := {}, {}, {}, 0;
      aborted, dangling, stranded := false, false, false;
      stale := {};
      nextLookup := 0;
      accepted, fired := {}, [];
    }

    // nameserver_pick: a server that is up, if there is one, and else some server
    method Pick() returns (ns: Option<nat>)
      ensures ns.None? <==> servers == {}
      ensures ns.Some? ==> ns.value in servers
      ensures up * servers != {} ==> ns.Some? && ns.value in up
    {
      if servers == {} {
        return None;
      }
      if up * servers != {} {
        var s :| s in up * servers;
        return Some(s);
      }
      var s :| s in servers;
      return Some(s);
    }

    // transaction_id_pick: anything but the identity that means none
    method PickId() returns (id: nat)
      ensures id != NO_ID
    {
      id := *;
      if id == NO_ID {
        id := 0;
      }
    }

    // request_new; built says whether the packet could be made
    method NewRequest(lookup: nat, pointer: bool, probe: Option<nat>, built: bool) returns (req: Request?)
      ensures req != null <==> built
      ensures req != null ==>
        fresh(req) && req.lookup == lookup && req.pointer == pointer && req.probe == probe && req.search == None
      ensures req != null ==> (req.ns.Some? ==> Serves(req.ns) && req.transId != NO_ID)
    {
      var issuing := requestsInflight < maxInflight;
      var id := NO_ID;
      var ns := None;
      if issuing {
        id := PickId();
      }
      if !built {
        return null;
      }
      if issuing {
        ns := Pick();
      }
      req := new Request(lookup, pointer, probe, ns, id);
    }

    // A request that has not been sent yet moves off a failed nameserver, to one that is up.
    ghost predicate Moved(req: Request, was: Option<nat>, ns: Option<nat>, failed: nat, up: set<nat>)
      reads req`txCount
    {
      if req.txCount == 0 && was == Some(failed) then ns.Some? && ns.value in up else ns == was
    }

    // So far the first i requests in flight.
    ghost predicate AllMoved(i: nat, was: map<Request, Option<nat>>, failed: nat)
      reads this`inflight, this`up, Members(inflight)`ns, Members(inflight)`txCount
    {
      // A let expression keeps the verifier from splitting this into parts.
      var moved := was.Keys == Members(inflight) &&
                   (forall j {:trigger inflight[j]} :: 0 <= j < i && j < |inflight| ==>
                     Moved(inflight[j], was[inflight[j]], inflight[j].ns, failed, up)) &&
                   (forall j {:trigger inflight[j]} :: i <= j < |inflight| ==> inflight[j].ns == was[inflight[j]]);
      moved
    }

    method MoveOff(req: Request, ns: nat, ghost i: nat, ghost was: map<Request, Option<nat>>)
      requires Rings() && Placed() && up <= servers && up != {}
      requires i < |inflight| && req == inflight[i] && AllMoved(i, was, ns)
      modifies req`ns
      ensures Rings() && Placed() && AllMoved(i + 1, was, ns)
    {
      if req.txCount == 0 && req.ns == Some(ns) {
        req.ns := Pick();
      }
      assert Rings() == old(Rings());
    }

    // Requests that have not been sent yet move off the failed nameserver.
    method Reassign(ns: nat)
      requires Valid() && ns in servers && ns !in up && up != {}
      modifies Members(inflight)`ns
      ensures Valid()
      ensures forall i {:trigger inflight[i]} :: 0 <= i < |inflight| ==>
        Moved(inflight[i], old(inflight[i].ns), inflight[i].ns, ns, up)
    {
      ghost var was := map r | r in Members(inflight) :: r.ns;
      var req := reqHead;
      if req == null {
        return;
      }
      ghost var i := 0;
      var more := true;
      while more
        invariant 0 <= i <= |inflight| && Rings() && Placed() && inflight != [] && AllMoved(i, was, ns)
        invariant if more then i < |inflight| && req == inflight[i] else i == |inflight|
        decreases |inflight| - i, more
      {
        MoveOff(req, ns, i, was);
        assert inflight[i].next == inflight[After(i, |inflight|)];
        req := req.next;
        i := i + 1;
        more := req != reqHead;
      }
    }

    // nameserver_failed
    method NameserverFailed(ns: nat)
      requires Valid() && ns in servers
      modifies this`up, this`good, Live()`ns
      ensures Valid() && up == old(up) - {ns}
      ensures forall r {:trigger r.ns} :: r in Live() ==>
        if r in inflight && r.txCount == 0 && old(r.ns) == Some(ns) && ns in old(up) && up != {}
        then r.ns.Some? && r.ns.value in up
        else r.ns == old(r.ns)
    {
      if ns !in up {
        return;
      }
      Down(ns);
      if good != 0 {
        Reassign(ns);
      }
    }

    method Down(ns: nat)
      requires Valid() && ns in up
      modifies this`up, this`good
      ensures Valid() && up == old(up) - {ns} && (good == 0 <==> up == {})
    {
      good := good - 1;
      up := up - {ns};
      assert Rings() == old(Rings()) && Placed() == old(Placed());
    }

    // nameserver_up
    method NameserverUp(ns: nat)
      requires Valid() && ns in servers
      modifies this`up, this`good
      ensures Valid() && up == old(up) + {ns}
    {
      if ns in up {
        return;
      }
      up := up + {ns};
      good := good + 1;
      assert Rings() == old(Rings());
      assert Placed() == old(Placed());
    }

    // evdns_request_transmit: the packet goes out, fails, or has to wait for the socket
    method Transmit(req: Request)
      requires Valid() && req in inflight
      modifies this`up, this`good, this`aborted, Live()`ns, Live()`txCount, Live()`transmitMe
      ensures Valid()
      ensures up <= old(up)
    {
      CheckId(req);
      var choked: bool, failed: bool := *, *;
      if choked {
        SetSent(req, false);
        return;
      }
      if failed {
        NameserverFailed(req.ns.value);
      }
      SetSent(req, true);
    }

    // A request without an identity ends the program.
    method CheckId(req: Request)
      modifies this`aborted
      ensures aborted == (old(aborted) || req.transId == NO_ID)
      ensures !aborted ==> Valid() == old(Valid())
    {
      if req.transId == NO_ID {
        aborted := true;
      }
    }

    method SetSent(req: Request, sent: bool)
      modifies req`txCount, req`transmitMe
      ensures Valid() == old(Valid())
    {
      req.transmitMe := !sent;
      if sent {
        req.txCount := req.txCount + 1;
      }
    }

    // evdns_transmit: every request in flight that has not gone out is tried again
    method TransmitAll()
      requires Valid()
      modifies this`up, this`good, this`aborted, Live()`ns, Live()`txCount, Live()`transmitMe
      ensures Valid()
      ensures up <= old(up)
    {
      var req := reqHead;
      if req == null {
        return;
      }
      ghost var i := 0;
      var more := true;
      while more
        invariant 0 <= i <= |inflight| && Valid() && inflight != [] && up <= old(up)
        invariant more ==> i < |inflight| && req == inflight[i]
        decreases |inflight| - i, more
      {
        if req.transmitMe {
          Transmit(req);
        }
        assert inflight[i].next == inflight[After(i, |inflight|)];
        req := req.next;
        i := i + 1;
        more := req != reqHead;
      }
    }

    // The request is linked into one ring; the other ring is left alone.
    method Link(req: Request, head: Request?, ghost s: seq<Request>, ghost otherHead: Request?,
        ghost other: seq<Request>) returns (head': Request)
      requires Ring(head, s) && Ring(otherHead, other) && Members(s) !! Members(other) && req !in s && req !in other
      modifies req`next, req`prev, Members(s)`next, Members(s)`prev
      ensures Ring(head', s + [req]) && Ring(otherHead, other)
      ensures Members(s + [req]) == Members(s) + {req}
    {
      head' := Insert(req, head, s);
      assert Ring(otherHead, other) == old(Ring(otherHead, other));
    }

    method JoinInflight(req: Request)
      requires Valid() && req !in Live() && Serves(req.ns) && req.transId != NO_ID
      modifies this`reqHead, this`inflight, this`requestsInflight, req`next, req`prev, Live()`next, Live()`prev
      ensures Valid() && inflight == old(inflight) + [req] && Live() == old(Live()) + {req}
    {
      reqHead := Link(req, reqHead, inflight, waitingHead, waiting);
      assert PlacedAll(inflight) && PlacedAll(inflight + [req]);
      inflight := inflight + [req];
      requestsInflight := requestsInflight + 1;
      assert Rings();
    }

    method JoinWaiting(req: Request)
      requires Valid() && req !in Live()
      modifies this`waitingHead, this`waiting, this`requestsWaiting, req`next, req`prev, Live()`next, Live()`prev
      ensures Valid() && waiting == old(waiting) + [req] && Live() == old(Live()) + {req}
    {
      waitingHead := Link(req, waitingHead, waiting, reqHead, inflight);
      waiting := waiting + [req];
      requestsWaiting := requestsWaiting + 1;
    }

    // request_submit
    method Submit(req: Request)
      requires Valid() && req !in Live() && (req.ns.Some? ==> Serves(req.ns) && req.transId != NO_ID)
      modifies this`reqHead, this`waitingHead, this`inflight, this`waiting, this`requestsInflight,
        this`requestsWaiting, this`up, this`good, this`aborted
      modifies req, Live()
      ensures Valid() && Live() == old(Live()) + {req}
      ensures old(req.ns).Some? ==> inflight == old(inflight) + [req] && waiting == old(waiting)
      ensures old(req.ns).None? ==> inflight == old(inflight) && waiting == old(waiting) + [req]
      ensures up <= old(up)
      ensures forall r {:trigger r.search} :: r in Live() ==> r.search == old(r.search)
    {
      if req.ns.Some? {
        JoinInflight(req);
        Transmit(req);
      } else {
        JoinWaiting(req);
      }
    }

    // The request is taken off one ring; the other ring is left alone.
    method Separate(req: Request, head: Request, ghost s: seq<Request>, ghost k: nat, ghost otherHead: Request?,
        ghost other: seq<Request>)
      returns (head': Request?)
      requires Ring(head, s) && Ring(otherHead, other) && Members(s) !! Members(other) && k < |s| && s[k] == req
      modifies Members(s)`next, Members(s)`prev
      ensures Ring(head', Without(s, k)) && Ring(otherHead, other)
      ensures Members(Without(s, k)) == Members(s) - {req}
    {
      MembersWithout(s, k);
      head' := Unlink(req, head, s, k);
      assert Ring(otherHead, other) == old(Ring(otherHead, other));
    }

    lemma PlacedWithout(s: seq<Request>, k: nat)
      requires k < |s| && Distinct(s) && PlacedAll(s)
      ensures PlacedAll(Without(s, k))
    {
      WithoutOne(s, k);
    }

    // The head of the waiting ring is taken off it.
    method LeaveWaiting() returns (req: Request)
      requires Valid() && requestsWaiting > 0
      modifies this`waitingHead, this`waiting, this`requestsWaiting, Live()`next, Live()`prev
      ensures Valid() && req == old(waiting)[0] && waiting == Without(old(waiting), 0)
      ensures req in old(Live()) && Live() == old(Live()) - {req}
    {
      req := waitingHead;
      ghost var s := Without(waiting, 0);
      waitingHead := Separate(req, waitingHead, waiting, 0, reqHead, inflight);
      waiting := s;
      requestsWaiting := requestsWaiting - 1;
      assert PlacedAll(inflight) == old(PlacedAll(inflight));
      assert Rings();
    }

    // A request in flight is taken off its ring.
    method LeaveInflight(req: Request)
      requires Valid() && req in inflight
      modifies this`reqHead, this`inflight, this`requestsInflight, Live()`next, Live()`prev
      ensures Valid() && req !in Live() && Live() == old(Live()) - {req}
      ensures requestsInflight == old(requestsInflight) - 1
    {
      ghost var k :| 0 <= k < |inflight| && inflight[k] == req;
      ghost var s := Without(inflight, k);
      PlacedWithout(inflight, k);
      reqHead := Separate(req, reqHead, inflight, k, waitingHead, waiting);
      inflight := s;
      requestsInflight := requestsInflight - 1;
      assert Rings();
    }

    // evdns_requests_pump_waiting_queue: while there is room, the first waiting request
    // goes into flight, so that requests go in the order in which they came.
    method Pump()
      requires Valid() && (servers != {} || requestsWaiting == 0)
      modifies this`reqHead, this`waitingHead, this`inflight, this`waiting, this`requestsInflight,
        this`requestsWaiting, this`up, this`good, this`aborted
      modifies Live()
      ensures Valid() && Live() == old(Live())
      ensures InTurn(old(inflight), old(waiting), inflight, waiting)
      ensures requestsInflight >= maxInflight || requestsWaiting == 0
      ensures up <= old(up)
      ensures old(waiting) == [] ==> up == old(up)
    {
      NoneInTurn(inflight, waiting);
      while requestsInflight < maxInflight && requestsWaiting > 0
        invariant Valid() && Live() == old(Live()) && (servers != {} || requestsWaiting == 0)
        invariant up <= old(up) && (old(waiting) == [] ==> waiting == [] && up == old(up))
        invariant InTurn(old(inflight), old(waiting), inflight, waiting)
        decreases requestsWaiting
      {
        NextInTurn(old(inflight), old(waiting), inflight, waiting);
        Promote();
      }
    }

    method Promote()
      requires Valid() && servers != {} && requestsWaiting > 0
      modifies this`reqHead, this`waitingHead, this`inflight, this`waiting, this`requestsInflight,
        this`requestsWaiting, this`up, this`good, this`aborted
      modifies Live()
      ensures Valid() && Live() == old(Live())
      ensures waiting == old(waiting)[1..] && inflight == old(inflight) + [old(waiting)[0]] &&
        requestsWaiting == old(requestsWaiting) - 1
      ensures up <= old(up)
    {
      var req := Take();
      Transmit(req);
      TransmitAll();
    }

    // The first waiting request, given a nameserver and an identity, joins those in flight.
    method Take() returns (req: Request)
      requires Valid() && servers != {} && requestsWaiting > 0
      modifies this`reqHead, this`waitingHead, this`inflight, this`waiting, this`requestsInflight, this`requestsWaiting
      modifies Live()
      ensures Valid() && Live() == old(Live()) && req in inflight
      ensures waiting == old(waiting)[1..] && inflight == old(inflight) + [old(waiting)[0]] &&
        requestsWaiting == old(requestsWaiting) - 1
    {
      WithoutFirst(waiting);
      req := LeaveWaiting();
      var ns := Pick();
      var id := PickId();
      Assign(req, ns, id);
      JoinInflight(req);
    }

    method Assign(req: Request, ns: Option<nat>, id: nat)
      requires req !in Live()
      modifies req`ns, req`transId
      ensures req.ns == ns && req.transId == id && Valid() == old(Valid())
    {
      req.ns := ns;
      req.transId := id;
    }

    // request_finished, for a request in flight
    method Finish(req: Request)
      requires Valid() && req in inflight && Settled(req)
      modifies this`reqHead, this`waitingHead, this`inflight, this`waiting, this`requestsInflight,
        this`requestsWaiting, this`up, this`good, this`aborted
      modifies Live()
      ensures Valid() && Live() == old(Live()) - {req} && Settled(null)
      ensures up <= old(up)
      ensures old(waiting) == [] ==> up == old(up)
    {
      Dies(Live(), req, fired, accepted);
      LeavesMarked(Live(), req, Ledger(accepted, fired, stale, dangling), servers, freed);
      LeaveInflight(req);
      assert Settled(null);
      Pump();
    }

    // ---- lookups

    method NewLookup(ghost x: Request?) returns (lookup: nat)
      requires Valid() && Settled(x)
      modifies this`nextLookup
      ensures Valid() && Settled(x) && lookup == old(nextLookup) && nextLookup == lookup + 1 && lookup !in accepted
    {
      lookup := nextLookup;
      nextLookup := nextLookup + 1;
      assert Valid() == old(Valid());
    }

    // A new request takes up a lookup.
    method Admit(req: Request, ghost x: Request?)
      requires Valid() && Settled(x) && req !in Live() && req != x && req.lookup !in accepted && req.lookup < nextLookup
      requires req.ns.Some? ==> Serves(req.ns) && req.transId != NO_ID
      requires req.probe.Some? ==> req.probe.value in servers
      modifies this`reqHead, this`waitingHead, this`inflight, this`waiting, this`requestsInflight,
        this`requestsWaiting, this`up, this`good, this`aborted
      modifies this`accepted, Live(), req
      ensures Valid() && Settled(x) && Live() == old(Live()) + {req}
      ensures x != null && x in old(inflight) ==> x in inflight
      ensures accepted == old(accepted) + {req.lookup}
      ensures old(req.ns).Some? ==> inflight == old(inflight) + [req] && waiting == old(waiting)
      ensures up <= old(up)
    {
      Accepts(Live(), x, req, fired, accepted);
      NewMarked(Live(), req, Ledger(accepted, fired, stale, dangling), servers, freed);
      Submit(req);
      Enter(req, x);
    }

    ghost method Enter(req: Request, x: Request?)
      requires Valid() && Balanced(Live(), x, fired, accepted + {req.lookup}) && req.lookup < nextLookup
      requires Marked(Live(), Ledger(accepted + {req.lookup}, fired, stale, dangling), servers, freed)
      requires forall id :: id in accepted ==> id < nextLookup
      modifies this`accepted
      ensures Valid() && Settled(x) && accepted == old(accepted) + {req.lookup}
    {
      accepted := accepted + {req.lookup};
      assert Valid() == old(Valid());
    }

    method SetSearch(req: Request, search: Option<Search>)
      requires req !in Live()
      modifies req`search
      ensures req.search == search && Valid() == old(Valid())
    {
      req.search := search;
    }

    // evdns_resolve_*, possibly from the callback of x: a request carries the new lookup.
    method Resolve(pointer: bool, search: Option<Search>, built: bool, ghost x: Request?) returns (ok: bool)
      requires Valid() && Settled(x) && (x != null ==> x in inflight)
      modifies this`reqHead, this`waitingHead, this`inflight, this`waiting, this`requestsInflight,
        this`requestsWaiting, this`up, this`good, this`aborted
      modifies this`nextLookup, this`accepted, Live()
      ensures Valid() && Settled(x) && (ok <==> built)
      ensures accepted == old(accepted) + if ok then {old(nextLookup)} else {}
      ensures (x != null ==> x in inflight) && old(Live()) <= Live() && fresh(Live() - old(Live()))
      ensures up <= old(up)
    {
      var lookup := NewLookup(x);
      var req := NewRequest(lookup, pointer, None, built);
      if req == null {
        return false;
      }
      SetSearch(req, search);
      Admit(req, x);
      return true;
    }

    // A callback, which may ask for more lookups.
    method Callback(asks: seq<Ask>, ghost x: Request)
      requires Valid() && Settled(x) && x in inflight
      modifies this`reqHead, this`waitingHead, this`inflight, this`waiting, this`requestsInflight,
        this`requestsWaiting, this`up, this`good, this`aborted
      modifies this`nextLookup, this`accepted, Live()
      ensures Valid() && Settled(x) && old(accepted) <= accepted
      ensures x in inflight && old(Live()) <= Live() && fresh(Live() - old(Live()))
      ensures up <= old(up)
      ensures asks == [] ==> up == old(up) && waiting == old(waiting) && x.ns == old(x.ns)
    {
      var i := 0;
      while i < |asks|
        invariant 0 <= i <= |asks| && Valid() && Settled(x) && old(accepted) <= accepted
        invariant up <= old(up) && (i == 0 ==> up == old(up) && waiting == old(waiting) && x.ns == old(x.ns))
        invariant x in inflight && old(Live()) <= Live() && fresh(Live() - old(Live()))
      {
        var ok := Resolve(asks[i].pointer, asks[i].search, asks[i].built, x);
        i := i + 1;
      }
    }

    // reply_callback: the callback of the lookup is called, once and for all. To a probe an
    // answer is good that names an address or says that there is none.
    method Fire(req: Request, good: bool, asks: seq<Ask>)
      requires Valid() && Settled(null) && req in inflight
      modifies this`reqHead, this`waitingHead, this`inflight, this`waiting, this`requestsInflight,
        this`requestsWaiting, this`up, this`good, this`aborted
      modifies this`nextLookup, this`accepted, this`fired, this`dangling, Live()
      ensures Valid() && Settled(req) && req in inflight && fired == old(fired) + [req.lookup] &&
        old(accepted) <= accepted
      ensures old(Live()) <= Live() && fresh(Live() - old(Live()))
      ensures up <= old(up) + (if req.probe.Some? && good then {req.probe.value} else {})
      ensures asks == [] ==> waiting == old(waiting) && (req.probe.None? ==> up == old(up))
      ensures asks == [] ==> req.ns == old(req.ns)
    {
      Record(req);
      if req.probe.Some? {
        CallProbe(req.probe.value, good);
      } else {
        Callback(asks, req);
      }
    }

    // nameserver_probe_callback; what it does to a freed nameserver is anyone's guess
    method CallProbe(ns: nat, good: bool)
      requires Valid() && (ns in servers || ns in freed)
      modifies this`up, this`good
      ensures Valid() && up == old(up) + if ns in servers && good then {ns} else {}
    {
      if good && ns in servers {
        NameserverUp(ns);
      }
    }

    // The callback is called; that of a probe goes to the nameserver, be it freed or not.
    method Record(req: Request)
      requires Valid() && Settled(null) && req in inflight
      modifies this`fired, this`dangling
      ensures Valid() && Settled(req) && fired == old(fired) + [req.lookup]
      ensures req.probe.Some? ==> req.probe.value in servers || req.probe.value in freed
    {
      Fires(Live(), req, fired, accepted);
      FiresMarked(Live(), req, Ledger(accepted, fired, stale, dangling), servers, freed);
      assert req.probe.Some? ==> Stale(req, servers) || Stale(req, freed);
      fired := fired + [req.lookup];
      dangling := dangling || Stale(req, freed);
    }

    // request_reissue: true when another nameserver was found
    method Reissue(req: Request) returns (ok: bool)
      requires Valid() && req in inflight
      modifies req`ns, req`reissueCount, req`txCount, req`transmitMe
      ensures Valid() && (ok <==> req.ns != old(req.ns))
      ensures ok ==> req.reissueCount == old(req.reissueCount) + 1 && req.txCount == 0 && req.transmitMe
      ensures up * servers != {} ==> req.ns.Some? && req.ns.value in up
      ensures !ok ==> req.reissueCount == old(req.reissueCount) && req.txCount == old(req.txCount)
    {
      var last := req.ns;
      var ns := Pick();
      SetServer(req, ns);
      if ns == last {
        return false;
      }
      Renew(req);
      return true;
    }

    method SetServer(req: Request, ns: Option<nat>)
      requires Valid() && req in inflight && Serves(ns)
      modifies req`ns
      ensures Valid() && req.ns == ns
    {
      req.ns := ns;
      assert Rings() == old(Rings());
      assert Placed();
    }

    method Renew(req: Request)
      modifies req`reissueCount, req`txCount, req`transmitMe
      ensures Valid() == old(Valid())
      ensures req.reissueCount == old(req.reissueCount) + 1 && req.txCount == 0 && req.transmitMe
    {
      req.reissueCount := req.reissueCount + 1;
      req.txCount := 0;
      req.transmitMe := true;
    }

    // search_try_next: true when another request has taken over the lookup
    method SearchTryNext(req: Request, built: bool) returns (ok: bool, ghost heir: Request?)
      requires Valid() && Settled(null) && req in inflight && req.search.Some?
      modifies this`reqHead, this`waitingHead, this`inflight, this`waiting, this`requestsInflight,
        this`requestsWaiting, this`up, this`good, this`aborted
      modifies Live()
      ensures Valid() && Settled(if ok then req else null) && req in inflight
      ensures ok <==>
        built && (old(req.search).value.index + 1 < old(req.search).value.domains || !old(req.search).value.dotted)
      ensures ok ==> heir != null && fresh(heir) && heir in Live() && heir != req
      ensures ok ==> heir.lookup == req.lookup && heir.pointer == req.pointer && heir.probe == req.probe
      ensures ok ==>
        heir.search ==
        if old(req.search).value.index + 1 < old(req.search).value.domains
        then Some(old(req.search).value.(index := old(req.search).value.index + 1)) else None
      ensures req.search == Some(old(req.search).value.(index := old(req.search).value.index + 1))
      ensures old(Live()) <= Live() && fresh(Live() - old(Live()))
      ensures up <= old(up)
      ensures !ok ==> up == old(up) && waiting == old(waiting) && inflight == old(inflight)
    {
      var search := req.search.value;
      search := search.(index := search.index + 1);
      StepSearch(req, search);
      if search.index >= search.domains && search.dotted {
        return false, null;
      }
      var next := NewRequest(req.lookup, req.pointer, req.probe, built);
      if next == null {
        return false, null;
      }
      if search.index < search.domains {
        SetSearch(next, Some(search));
      }
      Succeed(req, next);
      return true, next;
    }

    // A new request takes over the lookup of another one.
    method Succeed(req: Request, heir: Request)
      requires Valid() && Settled(null) && req in inflight && heir !in Live()
      requires heir.lookup == req.lookup && heir.probe == req.probe
      requires heir.ns.Some? ==> Serves(heir.ns) && heir.transId != NO_ID
      modifies this`reqHead, this`waitingHead, this`inflight, this`waiting, this`requestsInflight,
        this`requestsWaiting, this`up, this`good, this`aborted
      modifies heir, Live()
      ensures Valid() && Settled(req) && req in inflight
      ensures Live() == old(Live()) + {heir}
      ensures up <= old(up)
      ensures heir.search == old(heir.search) && req.search == old(req.search)
    {
      Succeeds(Live(), req, heir, fired, accepted);
      HeirMarked(Live(), req, heir, Ledger(accepted, fired, stale, dangling), servers, freed);
      Submit(heir);
    }

    method StepSearch(req: Request, search: Search)
      modifies req`search
      ensures Valid() == old(Valid())
      ensures req.search == Some(search)
    {
      req.search := Some(search);
    }

    // ---- what the network does

    // The callback is called and the request is done with.
    method Conclude(req: Request, good: bool, asks: seq<Ask>)
      requires Valid() && Settled(null) && req in inflight
      modifies this`reqHead, this`waitingHead, this`inflight, this`waiting, this`requestsInflight,
        this`requestsWaiting, this`up, this`good, this`aborted
      modifies this`nextLookup, this`accepted, this`fired, this`dangling, Live()
      ensures Valid() && Settled(null) && old(accepted) <= accepted && fresh(Live() - old(Live()))
      ensures fired == old(fired) + [req.lookup] && req !in Live()
      ensures up <= old(up) + (if req.probe.Some? && good then {req.probe.value} else {})
      ensures asks == [] && old(waiting) == [] && req.probe.None? ==> up == old(up)
    {
      Fire(req, good, asks);
      Finish(req);
    }

    // The part of reply_handle that passes a failure on: to the next name of the search
    // if there is one, and to the user if not.
    method PassFailure(req: Request, error: Error, built: bool, asks: seq<Ask>)
      requires Valid() && Settled(null) && req in inflight
      modifies this`reqHead, this`waitingHead, this`inflight, this`waiting, this`requestsInflight,
        this`requestsWaiting, this`up, this`good, this`aborted
      modifies this`nextLookup, this`accepted, this`fired, this`dangling, Live()
      ensures Valid() && Settled(null) && old(accepted) <= accepted && fresh(Live() - old(Live()))
      ensures req !in Live()
      ensures fired == old(fired) + if built && GoesOn(old(req.search), req.pointer) then [] else [req.lookup]
      ensures up <= old(up) + (if req.probe.Some? && error == NotExist then {req.probe.value} else {})
      ensures asks == [] && old(waiting) == [] && req.probe.None? && fired != old(fired) ==> up == old(up)
    {
      var ok := PassOn(req, built);
      if !ok {
        assert Live() == old(Live());
        Conclude(req, error == NotExist, asks);
      }
    }

    // A request that is part of a search gives way to the next one of it, if there is one.
    method PassOn(req: Request, built: bool) returns (ok: bool)
      requires Valid() && Settled(null) && req in inflight
      modifies this`reqHead, this`waitingHead, this`inflight, this`waiting, this`requestsInflight,
        this`requestsWaiting, this`up, this`good, this`aborted
      modifies Live()
      ensures Valid() && Settled(null) && fresh(Live() - old(Live()))
      ensures if ok then req !in Live() else req in inflight
      ensures ok <==> built && GoesOn(old(req.search), req.pointer)
      ensures up <= old(up)
      ensures !ok ==> up == old(up) && waiting == old(waiting) && inflight == old(inflight)
    {
      ok := false;
      if req.search.Some? && !req.pointer {
        ghost var heir;
        ok, heir := SearchTryNext(req, built);
        if ok {
          Finish(req);
        }
      }
    }

    // reply_handle
    method ReplyHandle(req: Request, reply: Reply, built: bool, asks: seq<Ask>)
      requires Valid() && Settled(null) && req in inflight
      modifies this`reqHead, this`waitingHead, this`inflight, this`waiting, this`requestsInflight,
        this`requestsWaiting, this`up, this`good, this`aborted
      modifies this`nextLookup, this`accepted, this`fired, this`dangling, Live()
      ensures Valid() && Settled(null) && old(accepted) <= accepted && fresh(Live() - old(Live()))
      ensures fired == old(fired) || fired == old(fired) + [req.lookup]
      ensures reply == Answer ==> fired == old(fired) + [req.lookup] && req !in Live()
      ensures req in Live() ==>
        (reply == Failure(NotImplemented) || reply == Failure(Refused)) && old(req.reissueCount) < 1
      ensures reply.Failure? && req !in Live() ==>
        fired == old(fired) + if built && old(req.search).Some? && !req.pointer &&
          (old(req.search).value.index + 1 < old(req.search).value.domains || !old(req.search).value.dotted)
        then [] else [req.lookup]
      ensures (reply == Failure(NotImplemented) || reply == Failure(Refused)) && old(req.reissueCount) < 1 ==>
        old(req.ns.value) !in up &&
        (old(up) - {old(req.ns.value)} != {} && (old(req.txCount) > 0 || old(req.ns.value) !in old(up)) ==>
          req in inflight && req.ns.Some? && req.ns.value in up && fired == old(fired)) &&
        (old(req.txCount) == 0 && old(req.ns.value) in old(up) && |old(up) - {old(req.ns.value)}| == 1 ==>
          req !in Live()) &&
        (servers == {old(req.ns.value)} ==> req !in Live())
      ensures req in Live() ==>
        req.reissueCount == 1 && req.txCount == 0 && req.transmitMe && up == old(up) - {old(req.ns.value)}
      ensures reply == Failure(ServerFailed) ==> up <= old(up)
      ensures reply == Failure(NotImplemented) || reply == Failure(Refused) ==> up <= old(up)
      ensures asks == [] && old(waiting) == [] && req.probe.None? && fired != old(fired) ==>
        up ==
        if reply == Failure(ServerFailed) then old(up)
        else if reply == Failure(NotImplemented) || reply == Failure(Refused) then
          if old(req.reissueCount) < 1 then old(up) - {old(req.ns.value)} else old(up)
        else old(up) + {old(req.ns.value)}
    {
      match reply {
        case Answer =>
          Deliver(req, asks);
        case Failure(error) =>
          HandleFailure(req, error, built, asks);
      }
    }

    // A failure.
    method HandleFailure(req: Request, error: Error, built: bool, asks: seq<Ask>)
      requires Valid() && Settled(null) && req in inflight
      modifies this`reqHead, this`waitingHead, this`inflight, this`waiting, this`requestsInflight,
        this`requestsWaiting, this`up, this`good, this`aborted
      modifies this`nextLookup, this`accepted, this`fired, this`dangling, Live()
      ensures Valid() && Settled(null) && old(accepted) <= accepted && fresh(Live() - old(Live()))
      ensures fired == old(fired) || fired == old(fired) + [req.lookup]
      ensures req in Live() ==>
        (error == NotImplemented || error == Refused) && old(req.reissueCount) < 1
      ensures req !in Live() ==>
        fired == old(fired) + if built && GoesOn(old(req.search), req.pointer) then [] else [req.lookup]
      ensures (error == NotImplemented || error == Refused) && old(req.reissueCount) < 1 ==>
        old(req.ns.value) !in up &&
        (old(up) - {old(req.ns.value)} != {} && (old(req.txCount) > 0 || old(req.ns.value) !in old(up)) ==>
          req in inflight && req.ns.Some? && req.ns.value in up && fired == old(fired)) &&
        (old(req.txCount) == 0 && old(req.ns.value) in old(up) && |old(up) - {old(req.ns.value)}| == 1 ==>
          req !in Live()) &&
        (servers == {old(req.ns.value)} ==> req !in Live())
      ensures req in Live() ==>
        req.reissueCount == 1 && req.txCount == 0 && req.transmitMe && up == old(up) - {old(req.ns.value)}
      ensures error == ServerFailed ==> up <= old(up)
      ensures error == NotImplemented || error == Refused ==> up <= old(up)
      ensures asks == [] && old(waiting) == [] && req.probe.None? && fired != old(fired) ==>
        up ==
        if error == ServerFailed then old(up)
        else if error == NotImplemented || error == Refused then
          if old(req.reissueCount) < 1 then old(up) - {old(req.ns.value)} else old(up)
        else old(up) + {old(req.ns.value)}
    {
      var again := TryElsewhere(req, error);
      assert Live() == old(Live()) && Settled(null) && fired == old(fired) && req.search == old(req.search);
      ghost var changed := up;
      if !again {
        PassFailure(req, error, built, asks);
        assert asks == [] && old(waiting) == [] && req.probe.None? && fired != old(fired) ==> up == changed;
      }
    }

    // What an error says about the nameserver; true when the request goes to another one.
    method TryElsewhere(req: Request, error: Error) returns (again: bool)
      requires Valid() && req in inflight
      modifies this`up, this`good, Live()`ns, Live()`reissueCount, Live()`txCount, Live()`transmitMe
      ensures Valid()
      ensures again ==> (error == NotImplemented || error == Refused) && old(req.reissueCount) < 1
      ensures up ==
        if error == NotImplemented || error == Refused then
          if old(req.reissueCount) < 1 then old(up) - {old(req.ns.value)} else old(up)
        else if error == ServerFailed then old(up)
        else old(up) + {old(req.ns.value)}
      ensures (error == NotImplemented || error == Refused) && old(req.reissueCount) < 1 ==>
        (up != {} && (old(req.txCount) > 0 || old(req.ns.value) !in old(up)) ==> again) &&
        (old(req.txCount) == 0 && old(req.ns.value) in old(up) && |up| == 1 ==> !again) &&
        (servers == {old(req.ns.value)} ==> !again)
      ensures again ==> req.reissueCount == 1 && req.txCount == 0 && req.transmitMe
      ensures again ==> req.ns.Some? && (up != {} ==> req.ns.value in up)
    {
      again := false;
      if error == NotImplemented || error == Refused {
        again := BadServer(req);
      } else if error != ServerFailed {
        NameserverUp(req.ns.value);
      }
    }

    // A nameserver that answers nonsense has failed; the request may be tried elsewhere, once.
    method BadServer(req: Request) returns (again: bool)
      requires Valid() && req in inflight
      modifies this`up, this`good, Live()`ns, Live()`reissueCount, Live()`txCount, Live()`transmitMe
      ensures Valid() && (again ==> old(req.reissueCount) < 1)
      ensures up == if old(req.reissueCount) < 1 then old(up) - {old(req.ns.value)} else old(up)
      ensures old(req.reissueCount) < 1 && up != {} && (old(req.txCount) > 0 || old(req.ns.value) !in old(up)) ==> again
      ensures old(req.reissueCount) < 1 && old(req.txCount) == 0 && old(req.ns.value) in old(up) && |up| == 1 ==> !again
      ensures servers == {old(req.ns.value)} ==> !again
      ensures again ==> req.reissueCount == 1 && req.txCount == 0 && req.transmitMe
      ensures again ==> req.ns.Some? && (up != {} ==> req.ns.value in up)
    {
      again := false;
      if req.reissueCount < MAX_REISSUES {
        NameserverFailed(req.ns.value);
        if |up| == 1 {
          Single(up);
        }
        again := Reissue(req);
      }
    }

    // A good answer: the callback, and a nameserver that is up.
    method Deliver(req: Request, asks: seq<Ask>)
      requires Valid() && Settled(null) && req in inflight
      modifies this`reqHead, this`waitingHead, this`inflight, this`waiting, this`requestsInflight,
        this`requestsWaiting, this`up, this`good, this`aborted
      modifies this`nextLookup, this`accepted, this`fired, this`dangling, Live()
      ensures Valid() && Settled(null) && old(accepted) <= accepted && fresh(Live() - old(Live()))
      ensures fired == old(fired) + [req.lookup] && req !in Live()
      ensures asks == [] ==> up <= old(up) + {old(req.ns.value)} + (if req.probe.Some? then {req.probe.value} else {})
      ensures asks == [] && old(waiting) == [] && req.probe.None? ==> up == old(up) + {old(req.ns.value)}
    {
      Fire(req, true, asks);
      NameserverUp(req.ns.value);
      Finish(req);
    }

    // evdns_request_timeout_callback
    method TimeoutCallback(req: Request, asks: seq<Ask>)
      requires Valid() && Settled(null) && req in inflight
      modifies this`reqHead, this`waitingHead, this`inflight, this`waiting, this`requestsInflight,
        this`requestsWaiting, this`up, this`good, this`aborted
      modifies this`nextLookup, this`accepted, this`fired, this`dangling, Live()
      ensures Valid() && Settled(null) && old(accepted) <= accepted && fresh(Live() - old(Live()))
      ensures fired == if old(req.txCount) >= 3 then old(fired) + [req.lookup] else old(fired)
      ensures up <= old(up)
    {
      CountTimeout(req.ns.value);
      assert Live() == old(Live()) && Settled(null) && fired == old(fired) && req.txCount == old(req.txCount);
      if req.txCount >= MAX_RETRANSMITS {
        Conclude(req, false, asks);
      } else {
        Transmit(req);
        assert Live() == old(Live()) && Settled(null);
      }
    }

    // Too many timeouts in a row, and the nameserver has failed.
    method CountTimeout(ns: nat)
      requires Valid() && ns in servers
      modifies this`up, this`good, Live()`ns
      ensures Valid()
      ensures up <= old(up)
    {
      var often: bool := *;
      if often {
        NameserverFailed(ns);
      }
    }

    // evdns_resume. Without a nameserver the first waiting request goes through the null
    // pointer that was picked for it.
    method Resume()
      requires Valid() && Settled(null)
      modifies this`reqHead, this`waitingHead, this`inflight, this`waiting, this`requestsInflight,
        this`requestsWaiting, this`up, this`good, this`aborted
      modifies this`stranded, Live()
      ensures Valid() && Settled(null) && Live() == old(Live())
      ensures stranded <==> old(stranded) || (servers == {} && old(waiting) != [] && maxInflight > 0)
      ensures InTurn(old(inflight), old(waiting), inflight, waiting)
      ensures servers != {} ==> requestsInflight >= maxInflight || requestsWaiting == 0
      ensures up <= old(up)
    {
      NoneInTurn(inflight, waiting);
      if servers == {} && requestsInflight < maxInflight && requestsWaiting > 0 {
        stranded := true;
        assert Rings() == old(Rings()) && Placed() == old(Placed());
        return;
      }
      if servers != {} || requestsWaiting == 0 {
        Pump();
      }
    }

    // nameserver_send_probe: a lookup of the resolver's own, straight into flight
    method SendProbe(ns: nat, built: bool)
      requires Valid() && Settled(null) && ns in servers
      modifies this`reqHead, this`waitingHead, this`inflight, this`waiting, this`requestsInflight,
        this`requestsWaiting, this`up, this`good, this`aborted
      modifies this`nextLookup, this`accepted, this`fired, this`dangling, Live()
      ensures Valid() && Settled(null) && old(accepted) <= accepted && fresh(Live() - old(Live()))
      ensures fired == old(fired) && accepted == old(accepted) + if built then {old(nextLookup)} else {}
      ensures if built then |inflight| == |old(inflight)| + 1 && old(inflight) < inflight && waiting == old(waiting) &&
          inflight[|old(inflight)|].probe == Some(ns)
        else inflight == old(inflight) && waiting == old(waiting)
      ensures up <= old(up)
    {
      var lookup := NewLookup(null);
      var req := NewRequest(lookup, false, Some(ns), built);
      if req == null {
        return;
      }
      var id := PickId();
      Assign(req, Some(ns), id);
      assert Settled(null) && req !in Live();
      Admit(req, null);
    }

    // evdns_nameserver_add
    method NameserverAdd(ns: nat)
      requires Valid() && Settled(null) && ns !in servers && ns !in freed
      modifies this`servers, this`up, this`good
      ensures Valid() && Settled(null) && servers == old(servers) + {ns} && up == old(up) + {ns}
    {
      servers := servers + {ns};
      up := up + {ns};
      good := good + 1;
      assert Rings() == old(Rings());
      assert Placed();
      assert Marked(Live(), Ledger(accepted, fired, stale, dangling), servers, freed);
    }

    // request_find_from_trans_id
    method Find(id: nat) returns (req: Request?)
      requires Valid()
      ensures req == null <==> forall r :: r in inflight ==> r.transId != id
      ensures req != null ==> req in inflight && req.transId == id
    {
      req := reqHead;
      if req == null {
        return;
      }
      ghost var i := 0;
      while true
        invariant 0 <= i < |inflight| && req == inflight[i] && forall j :: 0 <= j < i ==> inflight[j].transId != id
        decreases |inflight| - i
      {
        if req.transId == id {
          return;
        }
        assert inflight[i].next == inflight[After(i, |inflight|)];
        req := req.next;
        if req == reqHead {
          return null;
        }
        i := i + 1;
      }
    }

    // The request so many turns along the ring in flight.
    method Turn(turns: nat) returns (req: Request)
      requires Valid() && reqHead != null
      ensures req in inflight && (turns < |inflight| ==> req == inflight[turns])
    {
      req := reqHead;
      ghost var k := 0;
      var i := 0;
      while i < turns
        invariant 0 <= i <= turns && 0 <= k < |inflight| && req == inflight[k] && (turns < |inflight| ==> k == i)
      {
        assert inflight[k].next == inflight[After(k, |inflight|)];
        k := After(k, |inflight|);
        req := req.next;
        i := i + 1;
      }
    }

    // ---- suspension

    // A request goes to the front of the waiting ring, as good as new.
    method PutBack(req: Request, head: Request?, ghost s: seq<Request>) returns (head': Request)
      requires Ring(head, s) && req !in s
      modifies req, Members(s)`next, Members(s)`prev
      ensures Ring(head', [req] + s)
    {
      req.txCount, req.reissueCount := 0, 0;
      req.ns := None;
      req.transId := 0;
      req.transmitMe := false;
      head' := Insert(req, head, s);
      assert (s + [req])[0].prev == (s + [req])[Before(0, |s| + 1)];
      head' := head'.prev;
      Rotated(s, req);
    }

    method PutNext(req: Request, head: Request?, ghost s: seq<Request>, ghost w: seq<Request>,
        ghost i: nat) returns (head': Request, next: Request)
      requires i < |s| && s[i] == req && Distinct(s) && Members(s) !! Members(w) && Ring(head, Back(s, i) + w)
      requires forall j {:trigger s[j].next} :: i <= j < |s| ==> s[j].next == s[After(j, |s|)]
      modifies Members(s), Members(w)`next, Members(w)`prev
      ensures Ring(head', Back(s, i + 1) + w) && next == s[After(i, |s|)] && (next == s[0] <==> i + 1 == |s|)
      ensures forall j {:trigger s[j].next} :: i < j < |s| ==> s[j].next == s[After(j, |s|)]
    {
      BackMembers(s, w, i);
      assert s[i].next == s[After(i, |s|)];
      next := req.next;
      head' := PutBack(req, head, Back(s, i) + w);
      assert [req] + (Back(s, i) + w) == Back(s, i + 1) + w;
    }

    // The loop of evdns_clear_nameservers_and_suspend: one after the other, the requests
    // in flight go to the front of the waiting ring.
    method PutAllBack(first: Request?, ghost s: seq<Request>, head: Request?, ghost w: seq<Request>,
        count: int) returns (head': Request?, count': int)
      requires Ring(first, s) && Ring(head, w) && Members(s) !! Members(w)
      modifies Members(s), Members(w)`next, Members(w)`prev
      ensures Ring(head', Back(s, |s|) + w) && count' == count + |s|
    {
      head', count' := head, count;
      if first == null {
        assert Back(s, |s|) + w == w;
        return;
      }
      var req: Request := first;
      ghost var i := 0;
      assert Back(s, 0) + w == w;
      while true
        invariant 0 <= i < |s| && req == s[i] && count' == count + i
        invariant Ring(head', Back(s, i) + w)
        invariant forall j {:trigger s[j].next} :: i <= j < |s| ==> s[j].next == s[After(j, |s|)]
        decreases |s| - i
      {
        var next;
        head', next := PutNext(req, head', s, w, i);
        count' := count' + 1;
        if next == first {
          return;
        }
        req := next;
        i := i + 1;
      }
    }

    // evdns_clear_nameservers_and_suspend
    method Suspend()
      requires Valid() && Settled(null)
      modifies this`reqHead, this`waitingHead, this`inflight, this`waiting, this`requestsInflight,
        this`requestsWaiting, this`servers, this`freed, this`stale, this`up, this`good
      modifies Live()
      ensures Valid() && Settled(null) && fired == old(fired) && accepted == old(accepted) && Live() == old(Live())
      ensures stale == old(stale) + Probing(Live(), old(servers)) && freed == old(freed) + old(servers)
      ensures old(servers) != {} ==>
        servers == {} && inflight == [] &&
        waiting == Back(old(inflight), |old(inflight)|) + old(waiting)
    {
      if servers == {} {
        assert Probing(Live(), servers) == {};
        return;
      }
      BackAll(inflight, waiting);
      var head, count := PutAllBack(reqHead, inflight, waitingHead, waiting, requestsWaiting);
      Replace(head, Back(inflight, |inflight|) + waiting, count);
      FreeServers();
    }

    // Nothing in flight, and a new waiting ring.
    method Replace(head: Request?, ghost w: seq<Request>, count: int)
      requires Ring(head, w) && count == |w| && !aborted && Members(w) == Live() && up <= servers && good == |up|
      modifies this`reqHead, this`waitingHead, this`inflight, this`waiting, this`requestsInflight,
        this`requestsWaiting
      ensures Valid() && Live() == old(Live()) && inflight == [] && waiting == w
    {
      waitingHead, waiting, requestsWaiting := head, w, count;
      reqHead, inflight, requestsInflight := null, [], 0;
      assert Ring(head, w) == old(Ring(head, w));
      assert Live() == Members(w);
    }

    // The nameservers are freed, with nothing in flight.
    method FreeServers()
      requires Valid() && Settled(null) && inflight == []
      modifies this`servers, this`freed, this`stale, this`up, this`good
      ensures Valid() && Settled(null) && servers == {}
      ensures stale == old(stale) + Probing(Live(), old(servers)) && freed == old(freed) + old(servers)
    {
      FreesMarked(Live(), Ledger(accepted, fired, stale, dangling), servers, freed);
      stale := stale + Probing(Live(), servers);
      freed := freed + servers;
      servers, up, good := {}, {}, 0;
      assert Rings() == old(Rings());
    }

    // reply_parse, once it has the identity and the flags of the packet
    method Receive(id: nat, reply: Reply, built: bool, asks: seq<Ask>)
      requires Valid() && Settled(null)
      modifies this`reqHead, this`waitingHead, this`inflight, this`waiting, this`requestsInflight,
        this`requestsWaiting, this`up, this`good, this`aborted
      modifies this`nextLookup, this`accepted, this`fired, this`dangling, Live()
      ensures Valid() && Settled(null) && old(accepted) <= accepted && fresh(Live() - old(Live()))
      ensures OnceMore(old(fired), fired)
    {
      var req := Find(id);
      if req != null {
        ReplyHandle(req, reply, built, asks);
      }
    }

    // The timer of one of the requests in flight, if there is any.
    method Expire(turns: nat, asks: seq<Ask>)
      requires Valid() && Settled(null)
      modifies this`reqHead, this`waitingHead, this`inflight, this`waiting, this`requestsInflight,
        this`requestsWaiting, this`up, this`good, this`aborted
      modifies this`nextLookup, this`accepted, this`fired, this`dangling, Live()
      ensures Valid() && Settled(null) && old(accepted) <= accepted && fresh(Live() - old(Live()))
      ensures OnceMore(old(fired), fired)
    {
      if reqHead != null {
        var req := Turn(turns);
        TimeoutCallback(req, asks);
        assert fired == old(fired) || fired == old(fired) + [req.lookup];
      }
    }

    // A nameserver is added and probed, and the resolver suspended.
    method ProbeAndSuspend(ns: nat) returns (ghost probe: Request)
      requires Valid() && Settled(null) && inflight == waiting == [] && servers == freed == {}
      modifies this
      ensures Valid() && Settled(null) && inflight == [] && waiting == [probe] && servers == {} && freed == {ns}
      ensures fresh(probe) && probe.lookup in stale
    {
      NameserverAdd(ns);
      SendProbe(ns, true);
      probe := inflight[0];
      assert inflight == [probe] && Stale(probe, servers);
      Suspend();
      assert Back([probe], 1) == [probe] + Back([probe], 0);
    }

    method ResumeWith(ns: nat, ghost probe: Request)
      requires Valid() && Settled(null) && inflight == [] && waiting == [probe] && servers == {} && ns !in freed
      requires maxInflight > 0
      modifies this, Live()
      ensures Valid() && Settled(null) && inflight == [probe] && waiting == [] && stale == old(stale)
    {
      NameserverAdd(ns);
      Resume();
      ghost var k :| 0 <= k <= 1 && inflight == [] + [probe][..k] && waiting == [probe][k..];
      assert requestsInflight == |inflight| && requestsWaiting == |waiting|;
    }

    // An answer to the first request in flight arrives.
    method AnswerFirst()
      requires Valid() && Settled(null) && |inflight| == 1
      modifies this`reqHead, this`waitingHead, this`inflight, this`waiting, this`requestsInflight,
        this`requestsWaiting, this`up, this`good, this`aborted
      modifies this`nextLookup, this`accepted, this`fired, this`dangling, Live()
      ensures Valid() && Settled(null) && fired == old(fired) + [old(inflight)[0].lookup]
    {
      ghost var first := inflight[0];
      var req := Find(reqHead.transId);
      assert req == first && req.lookup == first.lookup;
      ReplyHandle(req, Answer, true, []);
    }

    // ---- runs

    // One thing that happens to the resolver, if it can happen now.
    method Advance(step: Step)
      requires Valid() && Settled(null)
      modifies this`reqHead, this`waitingHead, this`inflight, this`waiting, this`requestsInflight,
        this`requestsWaiting, this`up, this`good, this`aborted
      modifies this`servers, this`freed, this`stale, this`nextLookup, this`accepted, this`fired, this`dangling,
        this`stranded, Live()
      ensures Valid() && Settled(null) && old(accepted) <= accepted && fresh(Live() - old(Live()))
      ensures OnceMore(old(fired), fired)
      ensures stale == old(stale) + if step.Suspend? then old(Probing(Live(), servers)) else {}
      ensures stranded <==> old(stranded) || (step.Resume? && old(servers == {} && waiting != []) && maxInflight > 0)
    {
      if step.Resume? {
        Resume();
      } else if step.Suspend? {
        Suspend();
      } else {
        Happen(step);
      }
    }

    // What a program asks for and what the network does.
    method Happen(step: Step)
      requires Valid() && Settled(null)
      modifies this`reqHead, this`waitingHead, this`inflight, this`waiting, this`requestsInflight,
        this`requestsWaiting, this`up, this`good, this`aborted
      modifies this`servers, this`nextLookup, this`accepted, this`fired, this`dangling, Live()
      ensures Valid() && Settled(null) && old(accepted) <= accepted && fresh(Live() - old(Live()))
      ensures OnceMore(old(fired), fired)
    {
      match step {
        case Ask(ask) =>
          var ok := Resolve(ask.pointer, ask.search, ask.built, null);
        case Packet(id, flags, answered, built, asks) =>
          Receive(id, ReplyOf(flags, answered), built, asks);
        case Late(turns, asks) =>
          Expire(turns, asks);
        case Probe(ns, built) =>
          if ns in servers {
            SendProbe(ns, built);
          }
        case AddServer(ns) =>
          if ns !in servers && ns !in freed {
            NameserverAdd(ns);
          }
        case _ =>
      }
    }

    // Over any run every accepted lookup is held by exactly one request until its
    // callback is called, which happens once; the counters are the lengths of the rings;
    // and no request without an identity is ever sent. This lasts until a nameserver is
    // used that is not there, with which the run ends: a null one if the resolver is
    // resumed without any while requests wait, a freed one exactly when a probe is called
    // back that was alive when its nameserver was freed by a suspension. before[i] is what
    // was probed before step i.
    method Run(steps: seq<Step>) returns (ghost before: seq<set<nat>>)
      requires Valid() && Settled(null) && !dangling && !stranded
      modifies this`reqHead, this`waitingHead, this`inflight, this`waiting, this`requestsInflight,
        this`requestsWaiting, this`up, this`good, this`aborted
      modifies this`servers, this`freed, this`stale, this`nextLookup, this`accepted, this`fired, this`dangling,
        this`stranded, Live()
      ensures |before| <= |steps| && (!dangling && !stranded ==> |before| == |steps|)
      ensures !dangling && !stranded ==>
        Valid() && Settled(null) && requestsInflight == |inflight| && requestsWaiting == |waiting| && !aborted
      ensures old(accepted) <= accepted && old(fired) <= fired && fresh(Live() - old(Live()))
      ensures dangling <==> exists id :: id in stale && id in fired
      ensures forall id :: id in stale <==> id in old(stale) || Caught(steps, before, id)
    {
      var i := 0;
      before := [];
      while i < |steps| && !dangling && !stranded
        invariant |before| == i <= |steps| && Valid() && Settled(null) && old(accepted) <= accepted &&
          fresh(Live() - old(Live())) && old(fired) <= fired
        invariant forall id :: id in stale <==> id in old(stale) || Caught(steps, before, id)
      {
        ghost var probed := Probing(Live(), servers);
        CaughtNext(steps, before, probed);
        ghost var live := Live();
        Advance(steps[i]);
        assert forall r :: r in Live() && r !in live ==> fresh(r);
        before := before + [probed];
        i := i + 1;
      }
    }
  }

  // Both ends of a run exist. A probe is sent, the resolver is suspended, gets another
  // nameserver and is resumed, and the probe is answered.
  method SuspendedProbe(maxInflight: nat) returns (resolver: Resolver)
    requires maxInflight > 0
    ensures resolver.dangling
  {
    resolver := new Resolver(maxInflight);
    ghost var probe := resolver.ProbeAndSuspend(1);
    resolver.ResumeWith(2, probe);
    resolver.AnswerFirst();
    assert probe.lookup in resolver.stale && probe.lookup in resolver.fired;
  }

  // A lookup waits for a nameserver, and the resolver is resumed without one.
  method ResumedWithout(maxInflight: nat) returns (resolver: Resolver)
    requires maxInflight > 0
    ensures resolver.stranded
  {
    resolver := new Resolver(maxInflight);
    var ok := resolver.Resolve(false, None, true, null);
    assert 0 in resolver.accepted;
    resolver.Resume();
  }

  // A suspension freed the nameserver that the lookup was probing.
  ghost predicate Caught(steps: seq<Step>, before: seq<set<nat>>, id: nat)
    requires |before| <= |steps|
  {
    exists i :: 0 <= i < |before| && steps[i].Suspend? && id in before[i]
  }

  lemma {:induction false} CaughtNext(steps: seq<Step>, before: seq<set<nat>>, probed: set<nat>)
    requires |before| < |steps|
    ensures forall id :: Caught(steps, before + [probed], id) <==>
      Caught(steps, before, id) || (steps[|before|].Suspend? && id in probed)
  {
    forall id
      ensures Caught(steps, before + [probed], id) <==>
        Caught(steps, before, id) || (steps[|before|].Suspend? && id in probed)
    {
      var more := before + [probed];
      if i :| 0 <= i < |before| && steps[i].Suspend? && id in before[i] {
        assert more[i] == before[i];
      }
      if steps[|before|].Suspend? && id in probed {
        assert more[|before|] == probed;
      }
    }
  }
}
