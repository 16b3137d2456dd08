/**
 * Requests of the resolver and the circular lists that hold them.
 */
module DnsRing {

  import opened Basics

  // Where a search over the domains stands: the index tried, how many there are, and
  // whether the name has enough dots to be tried bare first.
  datatype Search = Search(index: int, domains: nat, dotted: bool)

  class Request {
    const lookup: nat            // whose callback and argument it carries
    const pointer: bool          // request_type == TYPE_PTR
    const probe: Option<nat>     // the nameserver it probes
    var next: Request?
    var prev: Request?
    var ns: Option<nat>
    var transId: nat
    var txCount: nat
    var reissueCount: nat
    var transmitMe: bool
    var search: Option<Search>

    constructor (lookup: nat, pointer: bool, probe: Option<nat>, ns: Option<nat>, transId: nat)
      ensures this.lookup == lookup && this.pointer == pointer && this.probe == probe && this.ns == ns &&
        this.transId == transId
      ensures next == null && prev == null && txCount == 0 && reissueCount == 0 && !transmitMe && search == None
    {
      this.lookup := lookup;
      this.pointer := pointer;
      this.probe := probe;
      this.ns := ns;
      this.transId := transId;
      next, prev := null, null;
      txCount, reissueCount := 0, 0;
      transmitMe := false;
      search := None;
    }
  }

  // ---------------------------------------------------------------- rings

  function Before(i: nat, n: nat): int {
    if i == 0 then n - 1 else i - 1
  }

  ghost function Members(s: seq<Request>): set<Request> {
    set r | r in s
  }

  // The requests of s, first to last, linked in a circle from the head.
  ghost predicate Ring(head: Request?, s: seq<Request>)
    reads Members(s)`next, Members(s)`prev
  {
    (if s == [] then head == null else head == s[0]) &&
    Distinct(s) &&
    (forall i {:trigger s[i].next} :: 0 <= i < |s| ==> s[i].next == s[After(i, |s|)]) &&
    (forall i {:trigger s[i].prev} :: 0 <= i < |s| ==> s[i].prev == s[Before(i, |s|)])
  }

  // evdns_request_insert: at the tail
  method Insert(req: Request, head: Request?, ghost s: seq<Request>) returns (head': Request)
    requires Ring(head, s) && req !in s
    modifies req`next, req`prev, Members(s)`next, Members(s)`prev
    ensures Ring(head', s + [req]) && (head != null ==> head' == head)
  {
    if head == null {
      req.next, req.prev := req, req;
      return req;
    }
    assert head.prev == s[|s| - 1] by { assert s[0].prev == s[Before(0, |s|)]; }
    req.prev := head.prev;
    req.prev.next := req;
    req.next := head;
    head.prev := req;
    return head;
  }

  ghost function Without(s: seq<Request>, k: nat): seq<Request>
    requires k < |s|
  {
    s[..k] + s[k + 1..]
  }

  ghost predicate Distinct(s: seq<Request>) {
    forall i, j {:trigger s[i], s[j]} :: 0 <= i < j < |s| ==> s[i] != s[j]
  }

  function Skip(i: nat, k: nat): nat {
    if i < k then i else i + 1
  }

  // What lies next to position i of s once position k is left out.
  lemma SkipSteps(i: nat, k: nat, n: nat)
    requires k < n && i < n - 1
    ensures var j := Skip(i, k);
            j < n && j != k &&
            Skip(After(i, n - 1), k) == (if After(j, n) == k then After(k, n) else After(j, n)) &&
            Before(i, n - 1) >= 0 &&
              Skip(Before(i, n - 1), k) == (if Before(j, n) == k then Before(k, n) else Before(j, n))
  {
  }

  lemma {:induction false} WithoutOne(s: seq<Request>, k: nat)
    requires k < |s| && Distinct(s)
    ensures Distinct(Without(s, k)) && s[k] !in Without(s, k)
    ensures forall i {:trigger Without(s, k)[i]} :: 0 <= i < |s| - 1 ==> Without(s, k)[i] == s[Skip(i, k)]
  {
    var t := Without(s, k);
    forall i, j | 0 <= i < j < |t|
      ensures t[i] != t[j]
    {
      assert t[i] == s[Skip(i, k)] && t[j] == s[Skip(j, k)];
    }
    forall i | 0 <= i < |t|
      ensures t[i] != s[k]
    {
      assert t[i] == s[Skip(i, k)];
    }
  }

  // Next to position j of s once position k is passed over.
  function NextBut(j: nat, k: nat, n: nat): nat {
    if After(j, n) == k then After(k, n) else After(j, n)
  }

  function PrevBut(j: nat, k: nat, n: nat): int {
    if Before(j, n) == k then Before(k, n) else Before(j, n)
  }

  lemma NeighbourSteps(j: nat, k: nat, n: nat)
    requires j < n && k < n && j != k
    ensures After(j, n) == k <==> j == Before(k, n)
    ensures Before(j, n) == k <==> j == After(k, n)
  {
  }

  // The links of all but request k pass it over.
  ghost predicate Bypassed(s: seq<Request>, k: nat)
    reads Members(s)`next, Members(s)`prev
  {
    forall j {:trigger s[j].next} {:trigger s[j].prev} :: 0 <= j < |s| && j != k ==>
      0 <= PrevBut(j, k, |s|) < |s| && NextBut(j, k, |s|) < |s| &&
      s[j].next == s[NextBut(j, k, |s|)] && s[j].prev == s[PrevBut(j, k, |s|)]
  }

  lemma {:induction false} RingWithout(s: seq<Request>, k: nat)
    requires k < |s| && Distinct(s) && Bypassed(s, k)
    ensures var t := Without(s, k); Ring(if t == [] then null else t[0], t)
  {
    WithoutOne(s, k);
    var t := Without(s, k);
    forall i | 0 <= i < |t|
      ensures t[i].next == t[After(i, |t|)] && t[i].prev == t[Before(i, |t|)]
    {
      SkipSteps(i, k, |s|);
      assert t[i] == s[Skip(i, k)];
    }
  }

  // The unlinking part of request_finished and of the pump
  method Unlink(req: Request, head: Request, ghost s: seq<Request>, ghost k: nat) returns (head': Request?)
    requires Ring(head, s) && k < |s| && s[k] == req
    modifies Members(s)`next, Members(s)`prev
    ensures Ring(head', Without(s, k))
  {
    ghost var n := |s|;
    assert s[k].next == s[After(k, n)] && s[k].prev == s[Before(k, n)];
    if req.next == req {
      return null;
    }
    Bypass(req, s, k);
    head' := if head == req then req.next else head;
    RingWithout(s, k);
  }

  method Bypass(req: Request, ghost s: seq<Request>, ghost k: nat)
    requires s != [] && Ring(s[0], s) && k < |s| && s[k] == req && |s| > 1
    modifies Members(s)`next, Members(s)`prev
    ensures Bypassed(s, k) && req.next == old(req.next)
  {
    ghost var n := |s|;
    assert s[k].next == s[After(k, n)] && s[k].prev == s[Before(k, n)];
    req.next.prev := req.prev;
    req.prev.next := req.next;
    forall j | 0 <= j < n && j != k
      ensures NextBut(j, k, n) < n && 0 <= PrevBut(j, k, n) < n
      ensures s[j].next == s[NextBut(j, k, n)] && s[j].prev == s[PrevBut(j, k, n)]
    {
      assert old(s[j].next) == s[After(j, n)] && old(s[j].prev) == s[Before(j, n)];
      NeighbourSteps(j, k, n);
    }
  }
}
