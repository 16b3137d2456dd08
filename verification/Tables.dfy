/**
  Deciding whether a table of find_among_b is in order.  One pass over neighbouring entries is
  enough: an entry must come after its predecessor, and its link must be the first entry that is
  short enough on the way along the predecessor's own links.
*/
module Tables {
  import opened Basics
  import opened Among
  import opened Snowball

  /** The symbol at distance `k` from the end. */
  function FromEnd(a: string, k: int): char
    requires 0 <= k < |a|
  {
    a[|a| - 1 - k]
  }

  /** `a` comes before `b` when both are read from the end, and they share exactly the last `n` symbols. */
  predicate Neighbours(a: string, b: string, n: int) {
    && 0 <= n <= |a| && n < |b|
    && (forall k | 0 <= k < n :: FromEnd(a, k) == FromEnd(b, k))
    && (n == |a| || FromEnd(a, n) < FromEnd(b, n))
  }

  /** One step along the links, unless `x` already has at most `n` symbols. */
  function Climb(v: seq<Entry>, x: int, n: int): int {
    if 0 <= x < |v| && |v[x].s| > n then v[x].substring else x
  }

  /** Entry `i`, which shares `n` symbols with its predecessor, is in order; four links are the most a table here
      needs. */
  predicate Follows(v: seq<Entry>, i: int, n: int)
    requires 0 < i < |v|
  {
    var link := v[i].substring;
    && Neighbours(v[i - 1].s, v[i].s, n)
    && link == Climb(v, Climb(v, Climb(v, Climb(v, i - 1, n), n), n), n)
    && link < i && (link >= 0 ==> |v[link].s| <= n)
  }

  /** All entries are in order; `common[i]` is what entry `i` shares with its predecessor. */
  ghost predicate InOrder(v: seq<Entry>, common: seq<int>) {
    && |common| == |v| > 0 && v[0].substring < 0
    && forall i | 0 < i < |v| :: Follows(v, i, common[i])
  }

  lemma NeighboursAreBefore(a: string, b: string, n: int)
    requires Neighbours(a, b, n)
    ensures Before(Reversed(a), Reversed(b))
    ensures forall k: string | k <= Reversed(a) && k <= Reversed(b) :: |k| <= n
  {
    var x, y := Reversed(a), Reversed(b);
    assert Agree(x, y, n) by {
      forall k | 0 <= k < n ensures x[k] == y[k] {
        assert FromEnd(a, k) == FromEnd(b, k);
      }
    }
    assert n < |x| ==> x[n] != y[n];
  }

  lemma {:induction false} AdjacentSorted(keys: seq<string>, i: int, j: int)
    requires 0 <= i < j < |keys|
    requires forall k | 0 < k < |keys| :: Before(keys[k - 1], keys[k])
    ensures Before(keys[i], keys[j])
    decreases j
  {
    assert Before(keys[j - 1], keys[j]);
    if i < j - 1 {
      AdjacentSorted(keys, i, j - 1);
      BeforeTransitive(keys[i], keys[j - 1], keys[j]);
    }
  }

  /** `x` heads the entries of at most `n` symbols that key `p` begins with, seen from `p`. */
  ghost predicate Leads(keys: seq<string>, p: int, n: int, x: int)
    requires 0 <= p < |keys|
  {
    && x < |keys|
    && (x >= 0 ==> keys[x] <= keys[p])
    && forall m | 0 <= m < |keys| && keys[m] <= keys[p] && |keys[m]| <= n :: x >= 0 && |keys[m]| <= |keys[x]|
  }

  /** Entry `m` has the right link. */
  ghost predicate LinkedRight(v: seq<Entry>, m: int)
    requires 0 <= m < |v|
  {
    LinkOk(Backward(v), m, v[m].substring) && v[m].substring < m
  }

  ghost predicate AllLinkedRight(v: seq<Entry>, n: int)
    requires n <= |v|
  {
    forall m {:trigger LinkedRight(v, m)} | 0 <= m < n :: LinkedRight(v, m)
  }

  lemma ClimbLeads(v: seq<Entry>, p: int, n: int, x: int)
    requires 0 <= p < |v| && Leads(Backward(v), p, n, x)
    requires x >= 0 ==> x <= p && LinkedRight(v, x)
    ensures Leads(Backward(v), p, n, Climb(v, x, n)) && Climb(v, x, n) <= x
  {
    var keys := Backward(v);
    var y := Climb(v, x, n);
    forall m | 0 <= m < |keys| && keys[m] <= keys[p] && |keys[m]| <= n ensures y >= 0 && |keys[m]| <= |keys[y]| {
      if y != x {
        assert ProperPrefix(keys[m], keys[x]);
      }
    }
  }

  lemma FourClimbsLead(v: seq<Entry>, p: int, n: int)
    requires 0 <= p < |v| && AllLinkedRight(v, p + 1)
    ensures Leads(Backward(v), p, n, Climb(v, Climb(v, Climb(v, Climb(v, p, n), n), n), n))
  {
    var x1 := Climb(v, p, n);
    var x2 := Climb(v, x1, n);
    var x3 := Climb(v, x2, n);
    ClimbLeads(v, p, n, p);
    ClimbLeads(v, p, n, x1);
    ClimbLeads(v, p, n, x2);
    ClimbLeads(v, p, n, x3);
  }

  /** A key that is a proper prefix of its successor's successor is a prefix of the key between them. */
  lemma PrefixOfPredecessor(keys: seq<string>, m: int, i: int)
    requires Sorted(keys) && 0 < i < |keys| && 0 <= m < |keys| && ProperPrefix(keys[m], keys[i])
    ensures keys[m] <= keys[i - 1]
  {
    PrefixNotAfter(keys[m], keys[i]);
    assert m < i;
    if m < i - 1 {
      BeforeAsymmetric(keys[i - 1], keys[i]);
      PrefixOfNeighbour(keys[m], keys[i - 1], keys[i]);
    }
  }

  /** The link of an entry in order is the longest proper prefix: `link` leads the prefixes of the predecessor. */
  lemma LinkFollows(keys: seq<string>, a: string, b: string, i: int, n: int, link: int)
    requires 0 < i < |keys| && Sorted(keys) && keys[i - 1] == Reversed(a) && keys[i] == Reversed(b) &&
      Neighbours(a, b, n)
    requires Leads(keys, i - 1, n, link) && (link >= 0 ==> |keys[link]| <= n)
    ensures LinkOk(keys, i, link)
  {
    NeighboursAreBefore(a, b, n);
    forall m | 0 <= m < |keys| && ProperPrefix(keys[m], keys[i]) ensures link >= 0 && |keys[m]| <= |keys[link]| {
      PrefixOfPredecessor(keys, m, i);
      assert |keys[m]| <= n;
    }
    if link >= 0 {
      SharedPrefix(a, b, n, keys[link]);
    }
  }

  lemma SharedPrefix(a: string, b: string, n: int, k: string)
    requires Neighbours(a, b, n) && k <= Reversed(a) && |k| <= n
    ensures ProperPrefix(k, Reversed(b))
  {
    forall j | 0 <= j < |k| ensures k[j] == Reversed(b)[j] {
      assert FromEnd(a, j) == FromEnd(b, j);
    }
  }

  lemma {:induction false} LinksFollow(v: seq<Entry>, common: seq<int>, n: nat)
    requires InOrder(v, common) && 0 < n <= |v| && Sorted(Backward(v))
    ensures AllLinkedRight(v, n)
    decreases n
  {
    if n == 1 {
      FirstLink(v);
    } else {
      LinksFollow(v, common, n - 1);
      NextLink(v, n - 1, common[n - 1]);
    }
  }

  lemma NextLink(v: seq<Entry>, i: int, n: int)
    requires 0 < i < |v| && Follows(v, i, n) && Sorted(Backward(v)) && AllLinkedRight(v, i)
    ensures LinkedRight(v, i)
  {
    FourClimbsLead(v, i - 1, n);
    LinkFollows(Backward(v), v[i - 1].s, v[i].s, i, n, v[i].substring);
  }

  lemma FirstLink(v: seq<Entry>)
    requires |v| > 0 && v[0].substring < 0 && Sorted(Backward(v))
    ensures LinkedRight(v, 0)
  {
    var keys := Backward(v);
    forall m | 0 <= m < |keys| ensures !ProperPrefix(keys[m], keys[0]) {
      if keys[m] <= keys[0] {
        PrefixNotAfter(keys[m], keys[0]);
      }
    }
  }

  /** A table whose neighbouring entries are in order meets what find_among_b relies on. */
  lemma OrderedTable(v: seq<Entry>, common: seq<int>)
    requires InOrder(v, common)
    ensures TableOk(Backward(v), v)
  {
    OrderedKeys(v, common);
    LinksFollow(v, common, |v|);
    forall i | 0 <= i < |v| ensures LinkOk(Backward(v), i, v[i].substring) {
      assert LinkedRight(v, i);
    }
  }

  lemma OrderedKeys(v: seq<Entry>, common: seq<int>)
    requires InOrder(v, common)
    ensures Sorted(Backward(v))
  {
    var keys := Backward(v);
    forall k | 0 < k < |keys| ensures Before(keys[k - 1], keys[k]) {
      assert Follows(v, k, common[k]);
      NeighboursAreBefore(v[k - 1].s, v[k].s, common[k]);
    }
    forall i, j | 0 <= i < j < |keys| ensures Before(keys[i], keys[j]) {
      AdjacentSorted(keys, i, j);
    }
  }

  /** a_0 of stem_UTF_8_norwegian.c */
  function NorwegianMainRow(i: int): Entry {
    match i
    case 0 => Entry("a", -1, 1, None)
    case 1 => Entry("e", -1, 1, None)
    case 2 => Entry("ede", 1, 1, None)
    case 3 => Entry("ande", 1, 1, None)
    case 4 => Entry("ende", 1, 1, None)
    case 5 => Entry("ane", 1, 1, None)
    case 6 => Entry("ene", 1, 1, None)
    case 7 => Entry("hetene", 6, 1, None)
    case 8 => Entry("erte", 1, 3, None)
    case 9 => Entry("en", -1, 1, None)
    case 10 => Entry("heten", 9, 1, None)
    case 11 => Entry("ar", -1, 1, None)
    case 12 => Entry("er", -1, 1, None)
    case 13 => Entry("heter", 12, 1, None)
    case 14 => Entry("s", -1, 2, None)
    case 15 => Entry("as", 14, 1, None)
    case 16 => Entry("es", 14, 1, None)
    case 17 => Entry("edes", 16, 1, None)
    case 18 => Entry("endes", 16, 1, None)
    case 19 => Entry("enes", 16, 1, None)
    case 20 => Entry("hetenes", 19, 1, None)
    case 21 => Entry("ens", 14, 1, None)
    case 22 => Entry("hetens", 21, 1, None)
    case 23 => Entry("ers", 14, 1, None)
    case 24 => Entry("ets", 14, 1, None)
    case 25 => Entry("et", -1, 1, None)
    case 26 => Entry("het", 25, 1, None)
    case 27 => Entry("ert", -1, 3, None)
    case _ => Entry("ast", -1, 1, None)
  }

  function NorwegianMain(): (v: seq<Entry>)
    ensures |v| == 29 && forall i | 0 <= i < 29 :: v[i] == NorwegianMainRow(i)
  {
    seq(29, i => NorwegianMainRow(i))
  }

  function NorwegianMainCommon(i: int): int {
    match i
    case 0 => 0 case 1 => 0 case 2 => 1 case 3 => 2 case 4 => 3 case 5 => 1 case 6 => 2 case 7 => 3
    case 8 => 1 case 9 => 0 case 10 => 2 case 11 => 0 case 12 => 1 case 13 => 2 case 14 => 0 case 15 => 1
    case 16 => 1 case 17 => 2 case 18 => 3 case 19 => 2 case 20 => 4 case 21 => 1 case 22 => 3 case 23 => 1
    case 24 => 1 case 25 => 0 case 26 => 2 case 27 => 1 case _ => 1
  }

  lemma NorwegianMain1(i: int)
    requires 1 <= i < 5
    ensures Follows(NorwegianMain(), i, NorwegianMainCommon(i))
  {
    match i
    case 1 =>
    case 2 =>
    case 3 =>
    case _ =>
  }

  lemma NorwegianMain5(i: int)
    requires 5 <= i < 9
    ensures Follows(NorwegianMain(), i, NorwegianMainCommon(i))
  {
    match i
    case 5 =>
    case 6 =>
    case 7 =>
    case _ => assert Climb(NorwegianMain(), 7, 1) == 6 && Climb(NorwegianMain(), 6, 1) == 1;
  }

  lemma NorwegianMain9(i: int)
    requires 9 <= i < 13
    ensures Follows(NorwegianMain(), i, NorwegianMainCommon(i))
  {
    match i
    case 9 => assert Climb(NorwegianMain(), 8, 0) == 1 && Climb(NorwegianMain(), 1, 0) == -1;
    case 10 =>
    case 11 => assert Climb(NorwegianMain(), 10, 0) == 9 && Climb(NorwegianMain(), 9, 0) == -1;
    case _ =>
  }

  lemma NorwegianMain13(i: int)
    requires 13 <= i < 17
    ensures Follows(NorwegianMain(), i, NorwegianMainCommon(i))
  {
    match i
    case 13 =>
    case 14 => assert Climb(NorwegianMain(), 13, 0) == 12 && Climb(NorwegianMain(), 12, 0) == -1;
    case 15 =>
    case _ =>
  }

  lemma NorwegianMain17(i: int)
    requires 17 <= i < 21
    ensures Follows(NorwegianMain(), i, NorwegianMainCommon(i))
  {
    match i
    case 17 =>
    case 18 =>
    case 19 =>
    case _ =>
  }

  lemma NorwegianMain21(i: int)
    requires 21 <= i < 25
    ensures Follows(NorwegianMain(), i, NorwegianMainCommon(i))
  {
    match i
    case 21 => assert Climb(NorwegianMain(), 20, 1) == 19 && Climb(NorwegianMain(), 19, 1) == 16 &&
      Climb(NorwegianMain(), 16, 1) == 14;
    case 22 =>
    case 23 => assert Climb(NorwegianMain(), 22, 1) == 21 && Climb(NorwegianMain(), 21, 1) == 14;
    case _ =>
  }

  lemma NorwegianMain25(i: int)
    requires 25 <= i < 29
    ensures Follows(NorwegianMain(), i, NorwegianMainCommon(i))
  {
    match i
    case 25 => assert Climb(NorwegianMain(), 24, 0) == 14 && Climb(NorwegianMain(), 14, 0) == -1;
    case 26 =>
    case 27 => assert Climb(NorwegianMain(), 26, 1) == 25 && Climb(NorwegianMain(), 25, 1) == -1;
    case _ =>
  }

  lemma NorwegianMainInOrder()
    ensures TableOk(Backward(NorwegianMain()), NorwegianMain())
  {
    var common := seq(29, i => NorwegianMainCommon(i));
    forall i | 0 < i < 29 ensures Follows(NorwegianMain(), i, common[i]) {
      if i < 5 { NorwegianMain1(i); }
      else if i < 9 { NorwegianMain5(i); }
      else if i < 13 { NorwegianMain9(i); }
      else if i < 17 { NorwegianMain13(i); }
      else if i < 21 { NorwegianMain17(i); }
      else if i < 25 { NorwegianMain21(i); }
      else { NorwegianMain25(i); }
    }
    OrderedTable(NorwegianMain(), common);
  }

  /** a_1 of stem_UTF_8_norwegian.c */
  function NorwegianPairRow(i: int): Entry {
    match i
    case 0 => Entry("dt", -1, -1, None)
    case _ => Entry("vt", -1, -1, None)
  }

  function NorwegianPair(): (v: seq<Entry>)
    ensures |v| == 2 && forall i | 0 <= i < 2 :: v[i] == NorwegianPairRow(i)
  {
    seq(2, i => NorwegianPairRow(i))
  }

  function NorwegianPairCommon(i: int): int {
    match i
    case 0 => 0 case _ => 1
  }

  lemma NorwegianPair1(i: int)
    requires 1 <= i < 2
    ensures Follows(NorwegianPair(), i, NorwegianPairCommon(i))
  {
    match i
    case _ =>
  }

  lemma NorwegianPairInOrder()
    ensures TableOk(Backward(NorwegianPair()), NorwegianPair())
  {
    var common := seq(2, i => NorwegianPairCommon(i));
    forall i | 0 < i < 2 ensures Follows(NorwegianPair(), i, common[i]) {
      NorwegianPair1(i);
    }
    OrderedTable(NorwegianPair(), common);
  }

  /** a_2 of stem_UTF_8_norwegian.c */
  function NorwegianOtherRow(i: int): Entry {
    match i
    case 0 => Entry("leg", -1, 1, None)
    case 1 => Entry("eleg", 0, 1, None)
    case 2 => Entry("ig", -1, 1, None)
    case 3 => Entry("eig", 2, 1, None)
    case 4 => Entry("lig", 2, 1, None)
    case 5 => Entry("elig", 4, 1, None)
    case 6 => Entry("els", -1, 1, None)
    case 7 => Entry("lov", -1, 1, None)
    case 8 => Entry("elov", 7, 1, None)
    case 9 => Entry("slov", 7, 1, None)
    case _ => Entry("hetslov", 9, 1, None)
  }

  function NorwegianOther(): (v: seq<Entry>)
    ensures |v| == 11 && forall i | 0 <= i < 11 :: v[i] == NorwegianOtherRow(i)
  {
    seq(11, i => NorwegianOtherRow(i))
  }

  function NorwegianOtherCommon(i: int): int {
    match i
    case 0 => 0 case 1 => 3 case 2 => 1 case 3 => 2 case 4 => 2 case 5 => 3 case 6 => 0 case 7 => 0
    case 8 => 3 case 9 => 3 case _ => 4
  }

  lemma NorwegianOther1(i: int)
    requires 1 <= i < 5
    ensures Follows(NorwegianOther(), i, NorwegianOtherCommon(i))
  {
    match i
    case 1 =>
    case 2 => assert Climb(NorwegianOther(), 1, 1) == 0 && Climb(NorwegianOther(), 0, 1) == -1;
    case 3 =>
    case _ =>
  }

  lemma NorwegianOther5(i: int)
    requires 5 <= i < 9
    ensures Follows(NorwegianOther(), i, NorwegianOtherCommon(i))
  {
    match i
    case 5 =>
    case 6 => assert Climb(NorwegianOther(), 5, 0) == 4 && Climb(NorwegianOther(), 4, 0) == 2 &&
      Climb(NorwegianOther(), 2, 0) == -1;
    case 7 =>
    case _ =>
  }

  lemma NorwegianOther9(i: int)
    requires 9 <= i < 11
    ensures Follows(NorwegianOther(), i, NorwegianOtherCommon(i))
  {
    match i
    case 9 =>
    case _ =>
  }

  lemma NorwegianOtherInOrder()
    ensures TableOk(Backward(NorwegianOther()), NorwegianOther())
  {
    var common := seq(11, i => NorwegianOtherCommon(i));
    forall i | 0 < i < 11 ensures Follows(NorwegianOther(), i, common[i]) {
      if i < 5 { NorwegianOther1(i); } else if i < 9 { NorwegianOther5(i); } else { NorwegianOther9(i); }
    }
    OrderedTable(NorwegianOther(), common);
  }

  /** a_0 of stem_UTF_8_danish.c */
  function DanishMainRow(i: int): Entry {
    match i
    case 0 => Entry("hed", -1, 1, None)
    case 1 => Entry("ethed", 0, 1, None)
    case 2 => Entry("ered", -1, 1, None)
    case 3 => Entry("e", -1, 1, None)
    case 4 => Entry("erede", 3, 1, None)
    case 5 => Entry("ende", 3, 1, None)
    case 6 => Entry("erende", 5, 1, None)
    case 7 => Entry("ene", 3, 1, None)
    case 8 => Entry("erne", 3, 1, None)
    case 9 => Entry("ere", 3, 1, None)
    case 10 => Entry("en", -1, 1, None)
    case 11 => Entry("heden", 10, 1, None)
    case 12 => Entry("eren", 10, 1, None)
    case 13 => Entry("er", -1, 1, None)
    case 14 => Entry("heder", 13, 1, None)
    case 15 => Entry("erer", 13, 1, None)
    case 16 => Entry("s", -1, 2, None)
    case 17 => Entry("heds", 16, 1, None)
    case 18 => Entry("es", 16, 1, None)
    case 19 => Entry("endes", 18, 1, None)
    case 20 => Entry("erendes", 19, 1, None)
    case 21 => Entry("enes", 18, 1, None)
    case 22 => Entry("ernes", 18, 1, None)
    case 23 => Entry("eres", 18, 1, None)
    case 24 => Entry("ens", 16, 1, None)
    case 25 => Entry("hedens", 24, 1, None)
    case 26 => Entry("erens", 24, 1, None)
    case 27 => Entry("ers", 16, 1, None)
    case 28 => Entry("ets", 16, 1, None)
    case 29 => Entry("erets", 28, 1, None)
    case 30 => Entry("et", -1, 1, None)
    case _ => Entry("eret", 30, 1, None)
  }

  function DanishMain(): (v: seq<Entry>)
    ensures |v| == 32 && forall i | 0 <= i < 32 :: v[i] == DanishMainRow(i)
  {
    seq(32, i => DanishMainRow(i))
  }

  function DanishMainCommon(i: int): int {
    match i
    case 0 => 0 case 1 => 3 case 2 => 2 case 3 => 0 case 4 => 1 case 5 => 2 case 6 => 4 case 7 => 1
    case 8 => 2 case 9 => 1 case 10 => 0 case 11 => 2 case 12 => 2 case 13 => 0 case 14 => 2 case 15 => 2
    case 16 => 0 case 17 => 1 case 18 => 1 case 19 => 2 case 20 => 5 case 21 => 2 case 22 => 3 case 23 => 2
    case 24 => 1 case 25 => 3 case 26 => 3 case 27 => 1 case 28 => 1 case 29 => 3 case 30 => 0 case _ => 2
  }

  lemma DanishMain1(i: int)
    requires 1 <= i < 5
    ensures Follows(DanishMain(), i, DanishMainCommon(i))
  {
    match i
    case 1 =>
    case 2 => assert Climb(DanishMain(), 1, 2) == 0 && Climb(DanishMain(), 0, 2) == -1;
    case 3 =>
    case _ =>
  }

  lemma DanishMain5(i: int)
    requires 5 <= i < 9
    ensures Follows(DanishMain(), i, DanishMainCommon(i))
  {
    match i
    case 5 =>
    case 6 =>
    case 7 => assert Climb(DanishMain(), 6, 1) == 5 && Climb(DanishMain(), 5, 1) == 3;
    case _ =>
  }

  lemma DanishMain9(i: int)
    requires 9 <= i < 13
    ensures Follows(DanishMain(), i, DanishMainCommon(i))
  {
    match i
    case 9 =>
    case 10 => assert Climb(DanishMain(), 9, 0) == 3 && Climb(DanishMain(), 3, 0) == -1;
    case 11 =>
    case _ =>
  }

  lemma DanishMain13(i: int)
    requires 13 <= i < 17
    ensures Follows(DanishMain(), i, DanishMainCommon(i))
  {
    match i
    case 13 => assert Climb(DanishMain(), 12, 0) == 10 && Climb(DanishMain(), 10, 0) == -1;
    case 14 =>
    case 15 =>
    case _ => assert Climb(DanishMain(), 15, 0) == 13 && Climb(DanishMain(), 13, 0) == -1;
  }

  lemma DanishMain17(i: int)
    requires 17 <= i < 21
    ensures Follows(DanishMain(), i, DanishMainCommon(i))
  {
    match i
    case 17 =>
    case 18 =>
    case 19 =>
    case _ =>
  }

  lemma DanishMain21(i: int)
    requires 21 <= i < 25
    ensures Follows(DanishMain(), i, DanishMainCommon(i))
  {
    match i
    case 21 => assert Climb(DanishMain(), 20, 2) == 19 && Climb(DanishMain(), 19, 2) == 18;
    case 22 =>
    case 23 =>
    case _ => assert Climb(DanishMain(), 23, 1) == 18 && Climb(DanishMain(), 18, 1) == 16;
  }

  lemma DanishMain25(i: int)
    requires 25 <= i < 29
    ensures Follows(DanishMain(), i, DanishMainCommon(i))
  {
    match i
    case 25 =>
    case 26 =>
    case 27 => assert Climb(DanishMain(), 26, 1) == 24 && Climb(DanishMain(), 24, 1) == 16;
    case _ =>
  }

  lemma DanishMain29(i: int)
    requires 29 <= i < 32
    ensures Follows(DanishMain(), i, DanishMainCommon(i))
  {
    match i
    case 29 =>
    case 30 => assert Climb(DanishMain(), 29, 0) == 28 && Climb(DanishMain(), 28, 0) == 16 &&
      Climb(DanishMain(), 16, 0) == -1;
    case _ =>
  }

  lemma DanishMainInOrder()
    ensures TableOk(Backward(DanishMain()), DanishMain())
  {
    var common := seq(32, i => DanishMainCommon(i));
    forall i | 0 < i < 32 ensures Follows(DanishMain(), i, common[i]) {
      if i < 5 { DanishMain1(i); }
      else if i < 9 { DanishMain5(i); }
      else if i < 13 { DanishMain9(i); }
      else if i < 17 { DanishMain13(i); }
      else if i < 21 { DanishMain17(i); }
      else if i < 25 { DanishMain21(i); }
      else if i < 29 { DanishMain25(i); }
      else { DanishMain29(i); }
    }
    OrderedTable(DanishMain(), common);
  }

  /** a_1 of stem_UTF_8_danish.c */
  function DanishPairRow(i: int): Entry {
    match i
    case 0 => Entry("gd", -1, -1, None)
    case 1 => Entry("dt", -1, -1, None)
    case 2 => Entry("gt", -1, -1, None)
    case _ => Entry("kt", -1, -1, None)
  }

  function DanishPair(): (v: seq<Entry>)
    ensures |v| == 4 && forall i | 0 <= i < 4 :: v[i] == DanishPairRow(i)
  {
    seq(4, i => DanishPairRow(i))
  }

  function DanishPairCommon(i: int): int {
    match i
    case 0 => 0 case 1 => 0 case 2 => 1 case _ => 1
  }

  lemma DanishPair1(i: int)
    requires 1 <= i < 4
    ensures Follows(DanishPair(), i, DanishPairCommon(i))
  {
    match i
    case 1 =>
    case 2 =>
    case _ =>
  }

  lemma DanishPairInOrder()
    ensures TableOk(Backward(DanishPair()), DanishPair())
  {
    var common := seq(4, i => DanishPairCommon(i));
    forall i | 0 < i < 4 ensures Follows(DanishPair(), i, common[i]) {
      DanishPair1(i);
    }
    OrderedTable(DanishPair(), common);
  }

  /** a_2 of stem_UTF_8_danish.c */
  function DanishOtherRow(i: int): Entry {
    match i
    case 0 => Entry("ig", -1, 1, None)
    case 1 => Entry("lig", 0, 1, None)
    case 2 => Entry("elig", 1, 1, None)
    case 3 => Entry("els", -1, 1, None)
    case _ => Entry("l\U{c3}\U{b8}st", -1, 2, None)
  }

  function DanishOther(): (v: seq<Entry>)
    ensures |v| == 5 && forall i | 0 <= i < 5 :: v[i] == DanishOtherRow(i)
  {
    seq(5, i => DanishOtherRow(i))
  }

  function DanishOtherCommon(i: int): int {
    match i
    case 0 => 0 case 1 => 2 case 2 => 3 case 3 => 0 case _ => 0
  }

  lemma DanishOther1(i: int)
    requires 1 <= i < 5
    ensures Follows(DanishOther(), i, DanishOtherCommon(i))
  {
    match i
    case 1 =>
    case 2 =>
    case 3 => assert Climb(DanishOther(), 2, 0) == 1 && Climb(DanishOther(), 1, 0) == 0 &&
      Climb(DanishOther(), 0, 0) == -1;
    case _ =>
  }

  lemma DanishOtherInOrder()
    ensures TableOk(Backward(DanishOther()), DanishOther())
  {
    var common := seq(5, i => DanishOtherCommon(i));
    forall i | 0 < i < 5 ensures Follows(DanishOther(), i, common[i]) {
      DanishOther1(i);
    }
    OrderedTable(DanishOther(), common);
  }
}
