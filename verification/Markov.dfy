/**
 * The Markov text generator: a chained hash table of two-word prefixes trained on a
 * text, its rebuilding as a two-level table without collisions, and the walk that
 * generates a page from either of them.
 */
module Markov {

  import opened Basics

  type Word = seq<byte>

  // Two words; strings are compared by strcmp, so equal strings are equal words.
  datatype Prefix = Prefix(first: Word, second: Word)

  const NONWORD: Word := [10]
  const NHASH: nat := 40930
  const WORD64: nat := 0x1_0000_0000_0000_0000

  // ---------------------------------------------------------------- hashing

  // One word and its terminator stirred into an unsigned long.
  function Stir(h: nat, w: Word, mult: nat): nat
    decreases |w|
  {
    if w == [] then (mult * h + 1) % WORD64
    else Stir((mult * h + w[0]) % WORD64, w[1..], mult)
  }

  function HashFrom(h: nat, p: Prefix, mult: nat): nat {
    Stir(Stir(h, p.first, mult), p.second, mult)
  }

  function Hash(p: Prefix): (h: nat)
    ensures h < NHASH
  {
    HashFrom(5381, p, 33) % NHASH
  }

  function SubHash(p: Prefix, size: nat, mult: nat): (h: nat)
    requires size > 0
    ensures h < size
  {
    HashFrom(0, p, mult) % size
  }

  // Digits read as a number to the base mult, behind h.
  function Numeral(h: nat, digits: seq<nat>, mult: nat): nat
    decreases |digits|
  {
    if digits == [] then h else Numeral(mult * h + digits[0], digits[1..], mult)
  }

  lemma {:induction false} NumeralAppend(h: nat, a: seq<nat>, b: seq<nat>, mult: nat)
    ensures Numeral(h, a + b, mult) == Numeral(Numeral(h, a, mult), b, mult)
    decreases |a|
  {
    if a == [] {
      assert a + b == b;
    } else {
      assert (a + b)[1..] == a[1..] + b;
      NumeralAppend(mult * h + a[0], a[1..], b, mult);
    }
  }

  lemma {:induction false} Reduced(g: nat, h: nat, mult: nat, d: nat)
    requires g % WORD64 == h % WORD64
    ensures (mult * g + d) % WORD64 == (mult * h + d) % WORD64
  {
    var k := g / WORD64 - h / WORD64;
    assert g == h + k * WORD64;
    Cycles(mult * h + d, mult * k);
    assert mult * g + d == mult * h + d + (mult * k) * WORD64;
  }

  lemma {:induction false} Cycles(a: int, k: int)
    ensures (a + k * WORD64) % WORD64 == a % WORD64
  {
    assert a + k * WORD64 == (a / WORD64 + k) * WORD64 + a % WORD64;
  }

  lemma {:induction false} StirIsNumeral(g: nat, h: nat, w: Word, mult: nat)
    requires g % WORD64 == h % WORD64
    ensures Stir(g, w, mult) == Numeral(h, Digits(w) + [1], mult) % WORD64
    decreases |w|
  {
    if w == [] {
      Reduced(g, h, mult, 1);
      assert Digits(w) + [1] == [1] && [1][1..] == [];
      assert Numeral(h, [1], mult) == Numeral(mult * h + 1, [], mult);
    } else {
      Reduced(g, h, mult, w[0]);
      StirIsNumeral((mult * g + w[0]) % WORD64, mult * h + w[0], w[1..], mult);
      assert (Digits(w) + [1])[1..] == Digits(w[1..]) + [1];
    }
  }

  function Digits(w: Word): (d: seq<nat>)
    ensures |d| == |w| && forall i :: 0 <= i < |w| ==> d[i] == w[i]
  {
    seq(|w|, i requires 0 <= i < |w| => w[i])
  }

  // The hash of a prefix is the number whose digits, to the base mult and behind the start, are
  // the characters of both words, with a one behind each word, reduced once.
  lemma {:induction false} HashIsNumeral(h: nat, p: Prefix, mult: nat)
    ensures HashFrom(h, p, mult) ==
      Numeral(h, Digits(p.first) + [1] + Digits(p.second) + [1], mult) % 0x1_0000_0000_0000_0000
    ensures Hash(p) ==
      Numeral(5381, Digits(p.first) + [1] + Digits(p.second) + [1], 33) % 0x1_0000_0000_0000_0000 % 40930
  {
    HashParts(h, p, mult);
    HashParts(5381, p, 33);
  }

  lemma {:induction false} HashParts(h: nat, p: Prefix, mult: nat)
    ensures HashFrom(h, p, mult) == Numeral(h, Digits(p.first) + [1] + Digits(p.second) + [1], mult) % WORD64
  {
    var a, b := Digits(p.first) + [1], Digits(p.second) + [1];
    StirIsNumeral(h, h, p.first, mult);
    StirIsNumeral(Stir(h, p.first, mult), Numeral(h, a, mult), p.second, mult);
    NumeralAppend(h, a, b, mult);
    assert a + b == Digits(p.first) + [1] + Digits(p.second) + [1];
  }

  method StirWord(h: nat, w: Word, mult: nat) returns (r: nat)
    ensures r == Stir(h, w, mult)
  {
    r := h;
    var i := 0;
    while i < |w|
      invariant 0 <= i <= |w| && Stir(h, w, mult) == Stir(r, w[i..], mult)
    {
      r := (mult * r + w[i]) % WORD64;
      i := i + 1;
    }
    r := (mult * r + 1) % WORD64;
  }

  // hash and hash_ share their loops; (h << 5) + h is 33 * h.
  method ComputeHash(h: nat, p: Prefix, mult: nat, size: nat) returns (r: nat)
    requires size > 0
    ensures r == HashFrom(h, p, mult) % size
  {
    r := StirWord(h, p.first, mult);
    r := StirWord(r, p.second, mult);
    r := r % size;
  }

  // ---------------------------------------------------------------- the text

  // The words that follow the prefix in ws, the last one first.
  function Followers(ws: seq<Word>, p: Prefix): seq<Word> {
    if |ws| < 3 then []
    else
      var n := |ws|;
      (if ws[n - 3] == p.first && ws[n - 2] == p.second then [ws[n - 1]] else []) + Followers(ws[..n - 1], p)
  }

  function Padded(text: seq<Word>): seq<Word> {
    [NONWORD, NONWORD] + text + [NONWORD]
  }

  ghost predicate Occurs(ws: seq<Word>, p: Prefix, w: Word, i: nat) {
    i + 2 < |ws| && ws[i] == p.first && ws[i + 1] == p.second && ws[i + 2] == w
  }

  lemma {:induction false} FollowersOccur(ws: seq<Word>, p: Prefix, w: Word)
    ensures w in Followers(ws, p) <==> exists i: nat :: Occurs(ws, p, w, i)
  {
    if |ws| >= 3 {
      var n := |ws|;
      var less := ws[..n - 1];
      FollowersOccur(less, p, w);
      if i: nat :| Occurs(less, p, w, i) {
        assert Occurs(ws, p, w, i);
      }
      if i: nat :| Occurs(ws, p, w, i) {
        if i + 2 < n - 1 {
          assert Occurs(less, p, w, i);
        }
      }
      if ws[n - 3] == p.first && ws[n - 2] == p.second && w == ws[n - 1] {
        assert Occurs(ws, p, w, n - 3);
      }
    }
  }

  // ---------------------------------------------------------------- the chained table

  class State {
    const pref: Prefix
    var suf: seq<Word>

    constructor (pref: Prefix)
      ensures this.pref == pref && suf == []
    {
      this.pref := pref;
      suf := [];
    }
  }

  // The state of the prefix in a chain.
  function Find(chain: seq<State>, p: Prefix): (sp: State?)
    ensures sp != null ==> sp in chain && sp.pref == p
    ensures sp == null ==> forall x :: x in chain ==> x.pref != p
  {
    if chain == [] then null
    else if chain[0].pref == p then chain[0]
    else Find(chain[1..], p)
  }

  class TextState {
    const statetab: array<seq<State>>
    ghost var states: set<State>

    ghost predicate Valid()
      reads this, statetab
    {
      statetab.Length == NHASH &&
      (forall h, sp :: 0 <= h < NHASH && sp in statetab[h] ==> sp in states && Hash(sp.pref) == h) &&
      (forall h, i, j :: 0 <= h < NHASH && 0 <= i < j < |statetab[h]| ==> statetab[h][i].pref != statetab[h][j].pref)
    }

    ghost function At(p: Prefix): (sp: State?)
      requires Valid()
      reads this, statetab
      ensures sp != null ==> sp in states && sp.pref == p
    {
      Find(statetab[Hash(p)], p)
    }

    // Every prefix that has a follower in ws has a state, and every state lists
    // exactly the followers of its prefix, the most recent first.
    ghost predicate Trained(ws: seq<Word>)
      requires Valid()
      reads this, statetab, states
    {
      forall p {:trigger At(p)} ::
        (At(p) == null ==> Followers(ws, p) == []) &&
        (At(p) != null ==> At(p).suf == Followers(ws, p) != [])
    }

    constructor ()
      ensures Valid() && fresh(statetab) && states == {}
      ensures forall h :: 0 <= h < NHASH ==> statetab[h] == []
    {
      statetab := new seq<State>[NHASH](_ => []);
      states := {};
    }

    // lookup without creation
    method Lookup(p: Prefix) returns (sp: State?)
      requires Valid()
      ensures sp == At(p)
    {
      var h := ComputeHash(5381, p, 33, NHASH);
      var chain := statetab[h];
      var i := 0;
      while i < |chain|
        invariant 0 <= i <= |chain| && Find(chain, p) == Find(chain[i..], p)
      {
        if chain[i].pref == p {
          return chain[i];
        }
        i := i + 1;
      }
      return null;
    }

    // lookup with creation
    method LookupCreate(p: Prefix) returns (sp: State)
      requires Valid()
      modifies this, statetab
      ensures Valid() && sp == At(p)
      ensures old(At(p)) != null ==> sp == old(At(p)) && states == old(states)
      ensures old(At(p)) == null ==> fresh(sp) && sp.suf == [] && states == old(states) + {sp}
      ensures forall q {:trigger At(q)} :: q != p ==> At(q) == old(At(q))
    {
      var found := Lookup(p);
      if found != null {
        return found;
      }
      var h := ComputeHash(5381, p, 33, NHASH);
      sp := new State(p);
      statetab[h] := [sp] + statetab[h];
      states := states + {sp};
    }

    // add: the suffix joins the list of the prefix, which moves on by one word.
    method Add(p: Prefix, suffix: Word, ghost ws: seq<Word>) returns (next: Prefix)
      requires Valid() && Trained(ws) && |ws| >= 2 && p == Prefix(ws[|ws| - 2], ws[|ws| - 1])
      modifies this, statetab, states
      ensures Valid() && fresh(states - old(states)) && Trained(ws + [suffix]) && next == Prefix(p.second, suffix)
    {
      var sp := LookupCreate(p);
      assert sp.suf == Followers(ws, p);
      assert TrainedBut(ws, p);
      AddSuffix(sp, suffix, ws);
      next := Prefix(p.second, suffix);
    }

    ghost predicate TrainedBut(ws: seq<Word>, p: Prefix)
      requires Valid()
      reads this, statetab, states
    {
      forall q {:trigger At(q)} :: q != p ==>
        (At(q) == null ==> Followers(ws, q) == []) &&
        (At(q) != null ==> At(q).suf == Followers(ws, q) != [])
    }

    method AddSuffix(sp: State, suffix: Word, ghost ws: seq<Word>)
      requires Valid() && |ws| >= 2 && sp.pref == Prefix(ws[|ws| - 2], ws[|ws| - 1])
      requires sp == At(sp.pref) && sp.suf == Followers(ws, sp.pref) && TrainedBut(ws, sp.pref)
      modifies sp
      ensures Valid() && Trained(ws + [suffix])
    {
      sp.suf := [suffix] + sp.suf;
      forall q
        ensures At(q) == null ==> Followers(ws + [suffix], q) == []
        ensures At(q) != null ==> At(q).suf == Followers(ws + [suffix], q) != []
      {
        FollowersAppend(ws, suffix, q);
      }
    }

    // init_file: the whole text is read between the padding words.
    method Build(text: seq<Word>)
      requires Valid() && states == {} && forall h :: 0 <= h < NHASH ==> statetab[h] == []
      modifies this, statetab
      ensures Valid() && fresh(states) && Trained([[10], [10]] + text + [[10]])
    {
      var p := Prefix(NONWORD, NONWORD);
      ghost var ws: seq<Word> := [NONWORD, NONWORD];
      var i := 0;
      while i < |text|
        invariant 0 <= i <= |text| && ws == [NONWORD, NONWORD] + text[..i] && Valid() && Trained(ws) && fresh(states)
        invariant p == Prefix(ws[|ws| - 2], ws[|ws| - 1])
      {
        p := Add(p, text[i], ws);
        ws := ws + [text[i]];
        i := i + 1;
      }
      p := Add(p, NONWORD, ws);
      assert ws + [NONWORD] == [[10], [10]] + text + [[10]];
    }
  }

  lemma {:induction false} FollowersAppend(ws: seq<Word>, w: Word, p: Prefix)
    ensures Followers(ws + [w], p) == (if |ws| >= 2 && p == Prefix(ws[|ws| - 2], ws[|ws| - 1]) then [w] else []) +
      Followers(ws, p)
  {
    assert (ws + [w])[..|ws|] == ws;
  }

  // ---------------------------------------------------------------- ideal hashing

  // No two states of the chain share a slot.
  ghost predicate CollisionFree(chain: seq<State>, size: nat, mult: nat)
    requires size > 0
  {
    forall i, j {:trigger chain[i], chain[j]} :: 0 <= i < j < |chain| ==>
      SubHash(chain[i].pref, size, mult) != SubHash(chain[j].pref, size, mult)
  }

  class Ideal {
    const sub: array<State?>
    const size: nat
    var hashNum: nat

    // Slot by slot, the first k states of the chain and nothing else.
    ghost predicate Holds(chain: seq<State>, k: nat)
      reads this, sub
    {
      size > 0 && sub.Length == size && k <= |chain| &&
      (forall i {:trigger chain[i]} :: 0 <= i < k ==> sub[SubHash(chain[i].pref, size, hashNum)] == chain[i]) &&
      (forall s {:trigger sub[s]} :: 0 <= s < size && sub[s] != null ==>
        exists i :: 0 <= i < k && chain[i] == sub[s] && SubHash(chain[i].pref, size, hashNum) == s)
    }

    constructor (size: nat)
      requires size > 0
      ensures this.size == size && fresh(sub) && sub.Length == size && forall s :: 0 <= s < size ==> sub[s] == null
    {
      this.size := size;
      sub := new State?[size](_ => null);
      hashNum := 0;
    }

    method Clear()
      modifies sub
      ensures forall s :: 0 <= s < sub.Length ==> sub[s] == null
    {
      var s := 0;
      while s < sub.Length
        invariant 0 <= s <= sub.Length && forall r :: 0 <= r < s ==> sub[r] == null
      {
        sub[s] := null;
        s := s + 1;
      }
    }

    // One multiplier: the chain is placed until two states meet.
    method Try(chain: seq<State>, mult: nat) returns (col: bool)
      requires size > 0 && sub.Length == size && forall s :: 0 <= s < size ==> sub[s] == null
      modifies this`hashNum, sub
      ensures hashNum == mult && (col <==> !CollisionFree(chain, size, mult))
      ensures if col then forall s :: 0 <= s < size ==> sub[s] == null else Holds(chain, |chain|)
    {
      hashNum := mult;
      var i := 0;
      while i < |chain|
        invariant 0 <= i <= |chain| && hashNum == mult && Holds(chain, i) && CollisionFree(chain[..i], size, mult)
      {
        var h := ComputeHash(0, chain[i].pref, mult, size);
        if sub[h] != null {
          Meets(chain, i);
          Clear();
          return true;
        }
        NoMeeting(chain, i);
        sub[h] := chain[i];
        i := i + 1;
      }
      assert chain[..i] == chain;
      return false;
    }

    // A filled slot is a collision; an empty one is not.
    lemma Meets(chain: seq<State>, i: nat)
      requires i < |chain| && Holds(chain, i) && sub[SubHash(chain[i].pref, size, hashNum)] != null
      ensures !CollisionFree(chain, size, hashNum)
    {
      var s := SubHash(chain[i].pref, size, hashNum);
      var j :| 0 <= j < i && chain[j] == sub[s] && SubHash(chain[j].pref, size, hashNum) == s;
      assert SubHash(chain[j].pref, size, hashNum) == SubHash(chain[i].pref, size, hashNum);
    }

    lemma NoMeeting(chain: seq<State>, i: nat)
      requires i < |chain| && Holds(chain, i) && sub[SubHash(chain[i].pref, size, hashNum)] == null
      requires CollisionFree(chain[..i], size, hashNum)
      ensures CollisionFree(chain[..i + 1], size, hashNum)
    {
      forall a, b | 0 <= a < b < i + 1
        ensures SubHash(chain[a].pref, size, hashNum) != SubHash(chain[b].pref, size, hashNum)
      {
        if b < i {
          assert chain[..i][a] == chain[a] && chain[..i][b] == chain[b];
        }
      }
    }
  }

  // ideal_hashing_: None stands for the exit when no multiplier will do.
  method IdealHashing(chain: seq<State>) returns (r: Ideal?)
    requires chain != []
    ensures r == null <==> forall m :: 1 <= m < 10000 ==> !CollisionFree(chain, |chain| * 10, m)
    ensures r != null ==> fresh(r) && fresh(r.sub) && r.size == |chain| * 10 && 1 <= r.hashNum < 10000
    ensures r != null ==> CollisionFree(chain, r.size, r.hashNum) && r.Holds(chain, |chain|)
    ensures r != null ==> forall m :: 1 <= m < r.hashNum ==> !CollisionFree(chain, r.size, m)
  {
    r := new Ideal(|chain| * 10);
    var mult := 1;
    var col := true;
    while mult < 10000
      invariant 1 <= mult <= 10000 && r.size == |chain| * 10 && fresh(r) && fresh(r.sub) && r.sub.Length == r.size
      invariant forall s :: 0 <= s < r.size ==> r.sub[s] == null
      invariant forall m :: 1 <= m < mult ==> !CollisionFree(chain, r.size, m)
    {
      col := r.Try(chain, mult);
      if !col {
        return;
      }
      mult := mult + 1;
    }
    return null;
  }

  class IdealState {
    const statetab: array<Ideal?>

    // The two-level table was made from the chains of t.
    ghost predicate MadeFrom(t: TextState, n: nat)
      reads this, statetab, t, t.statetab
      reads set h | 0 <= h < statetab.Length && statetab[h] != null :: statetab[h]
      reads set h | 0 <= h < statetab.Length && statetab[h] != null :: statetab[h].sub
    {
      n <= statetab.Length == NHASH == t.statetab.Length &&
      (forall h :: 0 <= h < n ==> (statetab[h] == null <==> t.statetab[h] == [])) &&
      (forall h :: 0 <= h < n && statetab[h] != null ==> statetab[h].Holds(t.statetab[h], |t.statetab[h]|))
    }

    constructor ()
      ensures fresh(statetab) && statetab.Length == NHASH
    {
      statetab := new Ideal?[NHASH](_ => null);
    }

    // Two prefixes share a slot of the table.
    ghost predicate Meet(i: Ideal?, p: Prefix, q: Prefix)
      reads i
    {
      i != null && i.size > 0 && SubHash(p, i.size, i.hashNum) == SubHash(q, i.size, i.hashNum)
    }

    // ideal_hashing: false stands for the exit.
    method Rebuild(t: TextState) returns (ok: bool)
      requires t.Valid() && statetab.Length == NHASH
      modifies statetab
      ensures ok ==> MadeFrom(t, NHASH)
      ensures ok <==> forall h :: 0 <= h < NHASH && t.statetab[h] != [] ==> Separable(t.statetab[h])
      ensures t.Valid()
    {
      var h := 0;
      while h < NHASH
        invariant 0 <= h <= NHASH && MadeFrom(t, h) && unchanged(t) && unchanged(t.statetab)
        invariant forall g :: 0 <= g < h && t.statetab[g] != [] ==> Separable(t.statetab[g])
      {
        if t.statetab[h] == [] {
          statetab[h] := null;
        } else {
          var r := IdealHashing(t.statetab[h]);
          if r == null {
            return false;
          }
          statetab[h] := r;
        }
        h := h + 1;
      }
      return true;
    }

    // lookup_ideal, which does not compare the words it finds: it finds the state of the
    // prefix if there is one, and if not the one whose slot the prefix meets. Where there is
    // no table it goes through a null pointer.
    method LookupIdeal(p: Prefix, ghost t: TextState) returns (crashed: bool, sp: State?)
      requires t.Valid() && MadeFrom(t, NHASH)
      ensures crashed <==> t.statetab[Hash(p)] == []
      ensures !crashed && sp != null ==> sp in t.statetab[Hash(p)] && Meet(statetab[Hash(p)], sp.pref, p)
      ensures !crashed && sp == null ==> forall q :: q in t.statetab[Hash(p)] ==> !Meet(statetab[Hash(p)], q.pref, p)
      ensures !crashed ==> (sp == t.At(p) <==> t.At(p) != null || sp == null)
    {
      var h1 := ComputeHash(5381, p, 33, NHASH);
      var i := statetab[h1];
      if i == null {
        return true, null;
      }
      var h2 := ComputeHash(0, p, i.hashNum, i.size);
      crashed, sp := false, i.sub[h2];
      ghost var chain := t.statetab[h1];
      if Find(chain, p) != null {
        ghost var k :| 0 <= k < |chain| && chain[k] == Find(chain, p);
      }
    }
  }

  // Some multiplier keeps the states of the chain apart.
  ghost predicate Separable(chain: seq<State>)
    requires chain != []
  {
    exists m :: 1 <= m < 10000 && CollisionFree(chain, |chain| * 10, m)
  }

  // ---------------------------------------------------------------- generation

  const RAND_MAX: nat := 0x7fff_ffff

  // my_rand_r keeps a 32-bit seed and answers its low 31 bits.
  function NextSeed(seed: nat): nat {
    (seed * 1103515245 + 12345) % 0x1_0000_0000
  }

  function Rand(seed: nat): nat {
    seed % (RAND_MAX + 1)
  }

  // A random number generator: the step from seed to seed, and the number a seed stands
  // for. What follows holds for any.
  datatype Random = Random(next: nat -> nat, value: nat -> nat)

  // What generate appends to the page, with the page numbers drawn.
  datatype Piece =
    | OpenP
    | CloseP
    | Plain(word: Word)
    | Inner(page: nat, word: Word)
    | Outer(server: nat, page: nat, word: Word)
    | Newline

  // serverFirst: C leaves open which of the two numbers of an outer link is drawn first.
  datatype Config = Config(intern: int, extern: int, total: nat, servers: nat, serverFirst: bool)

  datatype Drawn = Drawn(word: Word, seed: nat)
  datatype Page = Page(pieces: seq<Piece>, open: bool, seed: nat)

  // One word out of the list, each with the same chance; n of them seen before.
  function Pick(suf: seq<Word>, n: nat, w: Word, seed: nat, rnd: Random): Drawn {
    if suf == [] then Drawn(w, seed)
    else
      var s := rnd.next(seed);
      Pick(suf[1..], n + 1, if rnd.value(s) % (n + 1) == 0 then suf[0] else w, s, rnd)
  }

  lemma {:induction false} PickIsMember(suf: seq<Word>, n: nat, w: Word, seed: nat, rnd: Random)
    ensures Pick(suf, n, w, seed, rnd).word in suf || (Pick(suf, n, w, seed, rnd).word == w && (suf == [] || n > 0))
  {
    if suf != [] {
      var s := rnd.next(seed);
      PickIsMember(suf[1..], n + 1, if rnd.value(s) % (n + 1) == 0 then suf[0] else w, s, rnd);
    }
  }

  // The seed after i steps.
  ghost function Seeds(rnd: Random, seed: nat, i: nat): nat {
    if i == 0 then seed else rnd.next(Seeds(rnd, seed, i - 1))
  }

  lemma {:induction false} SeedsOn(rnd: Random, seed: nat, i: nat)
    ensures Seeds(rnd, rnd.next(seed), i) == Seeds(rnd, seed, i + 1)
  {
    if i > 0 {
      SeedsOn(rnd, seed, i - 1);
    }
  }

  // The k-th number is the last one divisible by its place, n words having been seen before.
  ghost predicate Last(suf: seq<Word>, n: nat, seed: nat, rnd: Random, k: nat) {
    1 <= k <= |suf| && rnd.value(Seeds(rnd, seed, k)) % (n + k) == 0 && NoneBehind(suf, n, seed, rnd, k)
  }

  // No number behind the k-th is.
  ghost predicate NoneBehind(suf: seq<Word>, n: nat, seed: nat, rnd: Random, k: nat) {
    forall j: nat {:trigger Seeds(rnd, seed, j)} :: k < j <= |suf| ==> rnd.value(Seeds(rnd, seed, j)) % (n + j) != 0
  }

  lemma {:induction false} NoneShifted(suf: seq<Word>, n: nat, seed: nat, rnd: Random, k: nat)
    requires suf != [] && NoneBehind(suf[1..], n + 1, rnd.next(seed), rnd, k)
    ensures NoneBehind(suf, n, seed, rnd, k + 1)
  {
    forall j: nat {:trigger Seeds(rnd, seed, j)} | k + 1 < j <= |suf|
      ensures rnd.value(Seeds(rnd, seed, j)) % (n + j) != 0
    {
      var i: nat := j - 1;
      SeedsOn(rnd, seed, i);
      assert rnd.value(Seeds(rnd, rnd.next(seed), i)) % (n + 1 + i) != 0;
      assert n + 1 + i == n + j;
    }
  }

  lemma {:induction false} LastShifted(suf: seq<Word>, n: nat, seed: nat, rnd: Random, k: nat)
    requires suf != [] && Last(suf[1..], n + 1, rnd.next(seed), rnd, k)
    ensures Last(suf, n, seed, rnd, k + 1)
  {
    SeedsOn(rnd, seed, k);
    NoneShifted(suf, n, seed, rnd, k);
    assert n + 1 + k == n + (k + 1);
  }

  // If no number is, k is 0.
  lemma {:induction false} PickLast(suf: seq<Word>, n: nat, w: Word, seed: nat, rnd: Random) returns (k: nat)
    ensures Pick(suf, n, w, seed, rnd).seed == Seeds(rnd, seed, |suf|)
    ensures k == 0 ==> NoneBehind(suf, n, seed, rnd, 0) && Pick(suf, n, w, seed, rnd).word == w
    ensures k > 0 ==> Last(suf, n, seed, rnd, k) && Pick(suf, n, w, seed, rnd).word == suf[k - 1]
  {
    k := 0;
    if suf != [] {
      var s, tail := rnd.next(seed), suf[1..];
      var hit := rnd.value(s) % (n + 1) == 0;
      k := PickLast(tail, n + 1, if hit then suf[0] else w, s, rnd);
      SeedsOn(rnd, seed, |tail|);
      assert Seeds(rnd, seed, 1) == rnd.next(Seeds(rnd, seed, 0));
      if k > 0 {
        LastShifted(suf, n, seed, rnd, k);
        k := k + 1;
      } else {
        NoneShifted(suf, n, seed, rnd, 0);
        k := if hit then 1 else 0;
      }
    }
  }

  lemma {:induction false} FirstIsHit(suf: seq<Word>, seed: nat, rnd: Random)
    requires suf != []
    ensures !NoneBehind(suf, 0, seed, rnd, 0)
  {
    assert rnd.value(Seeds(rnd, seed, 1)) % (0 + 1) == 0;
  }

  // The word drawn is the last one of the list whose number is divisible by its place, counted
  // from one; a number is drawn for every word.
  lemma {:induction false} PickIsLast(suf: seq<Word>, w: Word, seed: nat, rnd: Random) returns (k: nat)
    requires suf != []
    ensures Pick(suf, 0, w, seed, rnd).seed == Seeds(rnd, seed, |suf|)
    ensures 1 <= k <= |suf| && Pick(suf, 0, w, seed, rnd).word == suf[k - 1]
    ensures rnd.value(Seeds(rnd, seed, k)) % k == 0
    ensures forall j: nat {:trigger Seeds(rnd, seed, j)} :: k < j <= |suf| ==> rnd.value(Seeds(rnd, seed, j)) % j != 0
  {
    k := PickLast(suf, 0, w, seed, rnd);
    FirstIsHit(suf, seed, rnd);
    assert 0 + k == k;
    forall j: nat {:trigger Seeds(rnd, seed, j)} | k < j <= |suf|
      ensures rnd.value(Seeds(rnd, seed, j)) % j != 0
    {
      assert rnd.value(Seeds(rnd, seed, j)) % (0 + j) != 0 && 0 + j == j;
    }
  }

  // A generator that draws the k-th word, from seed 0.
  function For(k: nat): Random {
    Random(s => s + 1, s => if s == k then 0 else 1)
  }

  // Any word of the list may be drawn.
  lemma {:induction false} PickReaches(suf: seq<Word>, k: nat, w: Word)
    requires 1 <= k <= |suf|
    ensures Pick(suf, 0, w, 0, For(k)).word == suf[k - 1]
  {
    var rnd := For(k);
    var l := PickIsLast(suf, w, 0, rnd);
    Counted(rnd, k);
    Counted(rnd, l);
    Remainders(k, l, rnd.value(l));
  }

  lemma {:induction false} Remainders(k: nat, l: nat, v: nat)
    requires k > 0 && l > 0 && v == (if l == k then 0 else 1) && v % l == 0
    ensures l <= k && 0 % k == 0
  {
    assert l > 1 ==> 1 % l == 1;
  }

  lemma {:induction false} Counted(rnd: Random, i: nat)
    requires forall s: nat {:trigger rnd.next(s)} :: rnd.next(s) == s + 1
    ensures Seeds(rnd, 0, i) == i
  {
    if i > 0 {
      Counted(rnd, i - 1);
    }
  }

  // The markup around one word.
  function Mark(w: Word, open: bool, seed: nat, c: Config, rnd: Random): Page
    requires c.total > 0 && c.servers > 0
  {
    var s1 := rnd.next(seed);
    var s2 := rnd.next(s1);
    var s3 := rnd.next(s2);
    var breaks := rnd.value(s3) < RAND_MAX / 50;
    var l := Link(w, rnd.value(s1) < c.intern, rnd.value(s2) < c.extern, s3, c, rnd);
    var s4 := rnd.next(l.seed);
    Page(Dressed(open, breaks, l.piece, rnd.value(s4) < RAND_MAX / 3), open || breaks, s4)
  }

  // A word, perhaps at the start of a paragraph, perhaps before a new line.
  function Dressed(open: bool, breaks: bool, piece: Piece, newline: bool): seq<Piece> {
    (if !breaks then [] else if open then [CloseP, OpenP] else [OpenP]) + [piece] + (if newline then [Newline] else [])
  }

  // Which number decides on what: the first two on the kind of link, the third on a new paragraph,
  // the next, if there is a link, on its page and server, and the last on a new line.
  lemma {:induction false} MarkNumbers(w: Word, open: bool, seed: nat, c: Config, rnd: Random)
    requires c.total > 0 && c.servers > 0
    ensures
      var d := (i: nat) => rnd.value(Seeds(rnd, seed, i));
      var m := Mark(w, open, seed, c, rnd);
      var inner, outer := d(1) < c.intern, d(1) >= c.intern && d(2) < c.extern;
      var last := if inner then 5 else if outer then 6 else 4;
      m.pieces ==
        (if d(3) >= 42949672 then [] else if open then [CloseP, OpenP] else [OpenP]) +
        [if inner then Inner(d(4) % c.total, w)
         else if !outer then Plain(w)
         else if c.serverFirst then Outer(d(4) % c.servers, d(5) % c.total, w)
         else Outer(d(5) % c.servers, d(4) % c.total, w)] +
        (if d(last) < 715827882 then [Newline] else []) &&
      m.open == (open || d(3) < 42949672) && m.seed == Seeds(rnd, seed, last)
  {
    FirstSeeds(rnd, seed);
  }

  lemma {:induction false} FirstSeeds(rnd: Random, seed: nat)
    ensures var s := rnd.next;
      Seeds(rnd, seed, 1) == s(seed) && Seeds(rnd, seed, 2) == s(s(seed)) && Seeds(rnd, seed, 3) == s(s(s(seed))) &&
      Seeds(rnd, seed, 4) == s(s(s(s(seed)))) && Seeds(rnd, seed, 5) == s(s(s(s(s(seed))))) &&
      Seeds(rnd, seed, 6) == s(s(s(s(s(s(seed))))))
  {
    assert Seeds(rnd, seed, 0) == seed;
    assert Seeds(rnd, seed, 1) == rnd.next(Seeds(rnd, seed, 0));
    assert Seeds(rnd, seed, 2) == rnd.next(Seeds(rnd, seed, 1));
    assert Seeds(rnd, seed, 3) == rnd.next(Seeds(rnd, seed, 2));
    assert Seeds(rnd, seed, 4) == rnd.next(Seeds(rnd, seed, 3));
    assert Seeds(rnd, seed, 5) == rnd.next(Seeds(rnd, seed, 4));
    assert Seeds(rnd, seed, 6) == rnd.next(Seeds(rnd, seed, 5));
  }

  datatype Linked = Linked(piece: Piece, seed: nat)

  function Link(w: Word, inner: bool, outer: bool, seed: nat, c: Config, rnd: Random): (l: Linked)
    requires c.total > 0 && c.servers > 0
    ensures Carries(l.piece, w)
  {
    var s1 := rnd.next(seed);
    var s2 := rnd.next(s1);
    if inner then Linked(Inner(rnd.value(s1) % c.total, w), s1)
    else if outer then
      if c.serverFirst then Linked(Outer(rnd.value(s1) % c.servers, rnd.value(s2) % c.total, w), s2)
      else Linked(Outer(rnd.value(s2) % c.servers, rnd.value(s1) % c.total, w), s2)
    else Linked(Plain(w), seed)
  }

  predicate Carries(piece: Piece, w: Word) {
    match piece
    case Plain(v) => v == w
    case Inner(_, v) => v == w
    case Outer(_, _, v) => v == w
    case _ => false
  }

  // The page of at most n more words after the prefix p, in a text of words ws.
  function Generated(ws: seq<Word>, n: nat, p: Prefix, w: Word, open: bool, seed: nat, c: Config, rnd: Random): Page
    requires c.total > 0 && c.servers > 0
    decreases n
  {
    if n == 0 then Finish(open, seed)
    else
      var d := Pick(Followers(ws, p), 0, w, seed, rnd);
      if d.word == NONWORD then Finish(open, d.seed)
      else
        var m := Mark(d.word, open, d.seed, c, rnd);
        var rest := Generated(ws, n - 1, Prefix(p.second, d.word), d.word, m.open, m.seed, c, rnd);
        Page(m.pieces + rest.pieces, rest.open, rest.seed)
  }

  function Finish(open: bool, seed: nat): Page {
    Page(if open then [CloseP] else [], false, seed)
  }

  // ---- what a page is, whatever the seed

  // The words of a page.
  function WordsOf(pieces: seq<Piece>): seq<Word> {
    if pieces == [] then []
    else (match pieces[0]
          case Plain(w) => [w]
          case Inner(_, w) => [w]
          case Outer(_, _, w) => [w]
          case _ => []) + WordsOf(pieces[1..])
  }

  lemma {:induction false} WordsOfConcat(a: seq<Piece>, b: seq<Piece>)
    ensures WordsOf(a + b) == WordsOf(a) + WordsOf(b)
  {
    if a == [] {
      assert a + b == b;
    } else {
      assert (a + b)[1..] == a[1..] + b;
      WordsOfConcat(a[1..], b);
    }
  }

  // Paragraphs are opened only when none is open and closed only when one is;
  // the answer is whether one is left open.
  function Paragraphs(pieces: seq<Piece>, open: bool): (r: (bool, bool)) {
    if pieces == [] then (true, open)
    else match pieces[0]
      case OpenP => if open then (false, open) else Paragraphs(pieces[1..], true)
      case CloseP => if open then Paragraphs(pieces[1..], false) else (false, open)
      case _ => Paragraphs(pieces[1..], open)
  }

  lemma {:induction false} ParagraphsConcat(a: seq<Piece>, b: seq<Piece>, open: bool)
    requires Paragraphs(a, open).0
    ensures Paragraphs(a + b, open) == Paragraphs(b, Paragraphs(a, open).1)
  {
    if a == [] {
      assert a + b == b;
    } else {
      assert (a + b)[1..] == a[1..] + b;
      ParagraphsConcat(a[1..], b, match a[0] case OpenP => true case CloseP => false case _ => open);
    }
  }

  // A walk over the text: every word follows its two predecessors somewhere, and
  // every prefix reached has a word to go on with.
  ghost predicate Walk(ws: seq<Word>, p: Prefix, out: seq<Word>)
    decreases |out|
  {
    Followers(ws, p) != [] &&
    (out == [] || (out[0] != NONWORD && out[0] in Followers(ws, p) && Walk(ws, Prefix(p.second, out[0]), out[1..])))
  }

  // The prefix that a drawn word leads to has followers, unless the text ends there.
  lemma {:induction false} Closure(ws: seq<Word>, p: Prefix, w: Word)
    requires |ws| > 0 && ws[|ws| - 1] == NONWORD && w in Followers(ws, p) && w != NONWORD
    ensures Followers(ws, Prefix(p.second, w)) != []
  {
    FollowersOccur(ws, p, w);
    var i: nat :| Occurs(ws, p, w, i);
    var next := ws[i + 3];
    assert Occurs(ws, Prefix(p.second, w), next, i + 1);
    FollowersOccur(ws, Prefix(p.second, w), next);
  }

  lemma {:induction false} DressedWord(open: bool, breaks: bool, piece: Piece, newline: bool, w: Word)
    requires Carries(piece, w)
    ensures WordsOf(Dressed(open, breaks, piece, newline)) == [w]
    ensures Paragraphs(Dressed(open, breaks, piece, newline), open) == (true, open || breaks)
  {
    var para := if !breaks then [] else if open then [CloseP, OpenP] else [OpenP];
    var end := if newline then [Newline] else [];
    assert |para| == 2 ==> para[1..] == [OpenP] && Paragraphs([OpenP], false) == (true, true);
    assert Paragraphs(para, open) == (true, open || breaks);
    WordsOfConcat(para, [piece]);
    WordsOfConcat(para + [piece], end);
    ParagraphsConcat(para, [piece], open);
    ParagraphsConcat(para + [piece], end, open);
  }

  lemma {:induction false} MarkedWord(w: Word, open: bool, seed: nat, c: Config, rnd: Random)
    requires c.total > 0 && c.servers > 0
    ensures WordsOf(Mark(w, open, seed, c, rnd).pieces) == [w]
    ensures Paragraphs(Mark(w, open, seed, c, rnd).pieces, open) == (true, Mark(w, open, seed, c, rnd).open)
  {
    var s1 := rnd.next(seed);
    var s2 := rnd.next(s1);
    var s3 := rnd.next(s2);
    var l := Link(w, rnd.value(s1) < c.intern, rnd.value(s2) < c.extern, s3, c, rnd);
    var s4 := rnd.next(l.seed);
    DressedWord(open, rnd.value(s3) < RAND_MAX / 50, l.piece, rnd.value(s4) < RAND_MAX / 3, w);
  }

  // The last two words, once out has been written behind the prefix.
  function Reached(p: Prefix, out: seq<Word>): Prefix
    decreases |out|
  {
    if out == [] then p else Reached(Prefix(p.second, out[0]), out[1..])
  }

  // A walk of n words over the text, or of fewer if the text may end there, with its paragraphs closed.
  ghost predicate GoodPage(ws: seq<Word>, n: nat, p: Prefix, open: bool, pieces: seq<Piece>) {
    // A let expression keeps the verifier from splitting the page into parts.
    var good := Walk(ws, p, WordsOf(pieces)) && |WordsOf(pieces)| <= n && Paragraphs(pieces, open) == (true, false) &&
                (|WordsOf(pieces)| == n || [10] in Followers(ws, Reached(p, WordsOf(pieces))));
    good
  }

  lemma {:induction false} FinishedPage(ws: seq<Word>, n: nat, p: Prefix, open: bool, seed: nat)
    requires Followers(ws, p) != [] && (n == 0 || NONWORD in Followers(ws, p))
    ensures GoodPage(ws, n, p, open, Finish(open, seed).pieces)
  {
    assert open ==> [CloseP][1..] == [];
  }

  lemma {:induction false} OneWordMore(ws: seq<Word>, n: nat, p: Prefix, w: Word, m: seq<Piece>, rest: seq<Piece>,
      open: bool, open': bool)
    requires w in Followers(ws, p) && w != NONWORD
    requires WordsOf(m) == [w] && Paragraphs(m, open) == (true, open')
    requires GoodPage(ws, n, Prefix(p.second, w), open', rest)
    ensures GoodPage(ws, n + 1, p, open, m + rest)
  {
    WordsOfConcat(m, rest);
    ParagraphsConcat(m, rest, open);
    assert WordsOf(m + rest)[1..] == WordsOf(rest);
  }

  lemma {:induction false} PageEnds(ws: seq<Word>, n: nat, p: Prefix, w: Word, open: bool, seed: nat, c: Config,
      rnd: Random)
    requires c.total > 0 && c.servers > 0 && Followers(ws, p) != []
    requires n == 0 || Pick(Followers(ws, p), 0, w, seed, rnd).word == NONWORD
    ensures GoodPage(ws, n, p, open, Generated(ws, n, p, w, open, seed, c, rnd).pieces)
  {
    PickIsMember(Followers(ws, p), 0, w, seed, rnd);
    FinishedPage(ws, n, p, open, if n == 0 then seed else Pick(Followers(ws, p), 0, w, seed, rnd).seed);
  }

  lemma {:induction false} PageGoesOn(ws: seq<Word>, n: nat, p: Prefix, w: Word, open: bool, seed: nat, c: Config,
      rnd: Random, d: Drawn, m: Page)
    requires c.total > 0 && c.servers > 0 && n > 0 && d == Pick(Followers(ws, p), 0, w, seed, rnd)
    requires d.word in Followers(ws, p) && d.word != NONWORD && m == Mark(d.word, open, d.seed, c, rnd)
    requires GoodPage(ws, n - 1, Prefix(p.second, d.word), m.open,
                      Generated(ws, n - 1, Prefix(p.second, d.word), d.word, m.open, m.seed, c, rnd).pieces)
    ensures GoodPage(ws, n, p, open, Generated(ws, n, p, w, open, seed, c, rnd).pieces)
  {
    var rest := Generated(ws, n - 1, Prefix(p.second, d.word), d.word, m.open, m.seed, c, rnd).pieces;
    MarkedWord(d.word, open, d.seed, c, rnd);
    OneWordMore(ws, n - 1, p, d.word, m.pieces, rest, open, m.open);
    PageStep(ws, n, p, w, open, seed, c, rnd);
  }

  // Every page is a good page, whatever the seed.
  lemma {:induction false} PageStep(ws: seq<Word>, n: nat, p: Prefix, w: Word, open: bool, seed: nat, c: Config,
      rnd: Random)
    requires c.total > 0 && c.servers > 0 && n > 0 && Pick(Followers(ws, p), 0, w, seed, rnd).word != NONWORD
    ensures var d := Pick(Followers(ws, p), 0, w, seed, rnd);
            var m := Mark(d.word, open, d.seed, c, rnd);
            Generated(ws, n, p, w, open, seed, c, rnd).pieces
            == m.pieces + Generated(ws, n - 1, Prefix(p.second, d.word), d.word, m.open, m.seed, c, rnd).pieces
  {
  }

  lemma {:induction false} PageIsWalk(ws: seq<Word>, n: nat, p: Prefix, w: Word, open: bool, seed: nat, c: Config,
      rnd: Random)
    requires c.total > 0 && c.servers > 0
    requires |ws| > 0 && ws[|ws| - 1] == NONWORD && Followers(ws, p) != []
    ensures GoodPage(ws, n, p, open, Generated(ws, n, p, w, open, seed, c, rnd).pieces)
    decreases n, 2
  {
    if n == 0 || Pick(Followers(ws, p), 0, w, seed, rnd).word == NONWORD {
      PageEnds(ws, n, p, w, open, seed, c, rnd);
    } else {
      PageContinues(ws, n, p, w, open, seed, c, rnd);
    }
  }

  lemma {:induction false} DrawLeadsOn(ws: seq<Word>, p: Prefix, w: Word, seed: nat, rnd: Random)
    requires |ws| > 0 && ws[|ws| - 1] == NONWORD && Followers(ws, p) != []
    ensures var v := Pick(Followers(ws, p), 0, w, seed, rnd).word;
            v in Followers(ws, p) && (v != NONWORD ==> Followers(ws, Prefix(p.second, v)) != [])
  {
    var v := Pick(Followers(ws, p), 0, w, seed, rnd).word;
    PickIsMember(Followers(ws, p), 0, w, seed, rnd);
    if v != NONWORD {
      Closure(ws, p, v);
    }
  }

  lemma {:induction false} PageContinues(ws: seq<Word>, n: nat, p: Prefix, w: Word, open: bool, seed: nat, c: Config,
      rnd: Random)
    requires c.total > 0 && c.servers > 0 && n > 0
    requires |ws| > 0 && ws[|ws| - 1] == NONWORD && Followers(ws, p) != []
    requires Pick(Followers(ws, p), 0, w, seed, rnd).word != NONWORD
    ensures GoodPage(ws, n, p, open, Generated(ws, n, p, w, open, seed, c, rnd).pieces)
    decreases n, 1
  {
    var d := Pick(Followers(ws, p), 0, w, seed, rnd);
    var m := Mark(d.word, open, d.seed, c, rnd);
    DrawLeadsOn(ws, p, w, seed, rnd);
    RestIsWalk(ws, n, Prefix(p.second, d.word), d.word, m.open, m.seed, c, rnd);
    PageGoesOn(ws, n, p, w, open, seed, c, rnd, d, m);
  }

  lemma {:induction false} RestIsWalk(ws: seq<Word>, n: nat, q: Prefix, w: Word, open: bool, seed: nat, c: Config,
      rnd: Random)
    requires c.total > 0 && c.servers > 0 && n > 0
    requires |ws| > 0 && ws[|ws| - 1] == NONWORD && Followers(ws, q) != []
    ensures GoodPage(ws, n - 1, q, open, Generated(ws, n - 1, q, w, open, seed, c, rnd).pieces)
    decreases n, 0
  {
    PageIsWalk(ws, n - 1, q, w, open, seed, c, rnd);
  }

  // Spelled out: three words in a row on the page stand in a row in the text.
  lemma {:induction false} WalkOccurs(ws: seq<Word>, p: Prefix, out: seq<Word>, k: nat)
    requires Walk(ws, p, out) && k < |out|
    ensures InText(ws, [p.first, p.second] + out, k)
    decreases k
  {
    var page := [p.first, p.second] + out;
    if k == 0 {
      FollowersOccur(ws, p, out[0]);
      var i: nat :| Occurs(ws, p, out[0], i);
      assert p == Prefix(page[k], page[k + 1]) && page[k + 2] == out[0];
    } else {
      var less := [p.second, out[0]] + out[1..];
      WalkOccurs(ws, Prefix(p.second, out[0]), out[1..], k - 1);
      assert less[k - 1] == page[k] && less[k] == page[k + 1] && less[k + 1] == page[k + 2];
    }
  }

  ghost predicate InText(ws: seq<Word>, page: seq<Word>, k: nat)
    requires k + 2 < |page|
  {
    var p, w := Prefix(page[k], page[k + 1]), page[k + 2];
    exists i: nat :: Occurs(ws, p, w, i)
  }

  // ---- the generator itself

  // The generator is my_rand_r.
  ghost predicate Steps(rnd: Random) {
    (forall s: nat {:trigger NextSeed(s)} :: rnd.next(s) == NextSeed(s)) &&
      (forall s: nat {:trigger Rand(s)} :: rnd.value(s) == Rand(s))
  }

  function MyRandR(): Random {
    Random(NextSeed, Rand)
  }

  // my_rand_r
  method MyRand(seed: nat) returns (r: nat, seed': nat)
    ensures seed' == NextSeed(seed) && r == Rand(seed') && r <= RAND_MAX
    ensures seed' == (seed * 1103515245 + 12345) % 0x1_0000_0000 && r == seed' % 0x8000_0000
  {
    seed' := (seed * 1103515245 + 12345) % 0x1_0000_0000;
    r := seed' % (RAND_MAX + 1);
  }

  // A word of the list: the last one whose number is divisible by its place, counted from one.
  method PickWord(suf: seq<Word>, w0: Word, seed: nat, ghost rnd: Random)
    returns (w: Word, seed': nat, ghost last: nat)
    requires Steps(rnd)
    ensures Drawn(w, seed') == Pick(suf, 0, w0, seed, rnd)
    ensures seed' == Seeds(rnd, seed, |suf|) && (suf == [] ==> w == w0)
    ensures suf != [] ==>
      1 <= last <= |suf| && w == suf[last - 1] && rnd.value(Seeds(rnd, seed, last)) % last == 0 &&
      forall j: nat {:trigger Seeds(rnd, seed, j)} :: last < j <= |suf| ==> rnd.value(Seeds(rnd, seed, j)) % j != 0
  {
    last := 0;
    if suf == [] {
      assert Seeds(rnd, seed, 0) == seed;
    } else {
      last := PickIsLast(suf, w0, seed, rnd);
    }
    w, seed' := w0, seed;
    var n := 0;
    while n < |suf|
      invariant 0 <= n <= |suf| && Pick(suf, 0, w0, seed, rnd) == Pick(suf[n..], n, w, seed', rnd)
    {
      var r;
      r, seed' := MyRand(seed');
      if r % (n + 1) == 0 {
        w := suf[n];
      }
      n := n + 1;
    }
  }

  method AddLink(w: Word, inner: bool, outer: bool, seed: nat, c: Config, ghost rnd: Random)
    returns (piece: Piece, seed': nat)
    requires Steps(rnd)
    requires c.total > 0 && c.servers > 0
    ensures Linked(piece, seed') == Link(w, inner, outer, seed, c, rnd)
  {
    if inner {
      var page;
      page, seed' := MyRand(seed);
      piece := Inner(page % c.total, w);
    } else if outer {
      var first, second;
      first, seed' := MyRand(seed);
      second, seed' := MyRand(seed');
      piece := if c.serverFirst then Outer(first % c.servers, second % c.total, w)
               else Outer(second % c.servers, first % c.total, w);
    } else {
      piece, seed' := Plain(w), seed;
    }
  }

  method AddWord(w: Word, open: bool, seed: nat, c: Config, ghost rnd: Random)
    returns (pieces: seq<Piece>, open': bool, seed': nat)
    requires Steps(rnd)
    requires c.total > 0 && c.servers > 0
    ensures Page(pieces, open', seed') == Mark(w, open, seed, c, rnd)
  {
    pieces, open' := [], open;
    var r1, r2, r3, r4, piece;
    r1, seed' := MyRand(seed);
    r2, seed' := MyRand(seed');
    r3, seed' := MyRand(seed');
    if r3 < RAND_MAX / 50 {
      if open' {
        pieces := pieces + [CloseP];
      }
      pieces := pieces + [OpenP];
      open' := true;
    }
    piece, seed' := AddLink(w, r1 < c.intern, r2 < c.extern, seed', c, rnd);
    pieces := pieces + [piece];
    r4, seed' := MyRand(seed');
    if r4 < RAND_MAX / 3 {
      pieces := pieces + [Newline];
    }
  }

  // The table is trained on ws, and the two-level table, if there is one, made from it.
  ghost predicate Ready(t: TextState, ideal: IdealState?, ws: seq<Word>)
    reads t, t.statetab, t.states
    reads if ideal == null then {} else {ideal, ideal.statetab}
    reads if ideal == null then {} else
      set h | 0 <= h < ideal.statetab.Length && ideal.statetab[h] != null :: ideal.statetab[h]
    reads if ideal == null then {} else
      set h | 0 <= h < ideal.statetab.Length && ideal.statetab[h] != null :: ideal.statetab[h].sub
  {
    // A let expression keeps the verifier from splitting the tables into parts.
    var ready := t.Valid() && t.Trained(ws) && (ideal != null ==> ideal.MadeFrom(t, NHASH));
    ready
  }

  // The state of the prefix, from the two-level table if there is one and from the
  // chains if not, and a word drawn from its list.
  method DrawWord(t: TextState, ideal: IdealState?, ghost ws: seq<Word>, p: Prefix, w: Word, seed: nat,
      ghost rnd: Random) returns (w': Word, seed': nat)
    requires Steps(rnd)
    requires Ready(t, ideal, ws) && Followers(ws, p) != []
    ensures Drawn(w', seed') == Pick(Followers(ws, p), 0, w, seed, rnd) && w' in Followers(ws, p)
  {
    var sp: State?;
    assert t.At(p) != null && t.At(p).suf == Followers(ws, p);
    if ideal != null {
      var crashed;
      crashed, sp := ideal.LookupIdeal(p, t);
    } else {
      sp := t.Lookup(p);
    }
    PickIsMember(Followers(ws, p), 0, w, seed, rnd);
    ghost var last;
    w', seed', last := PickWord(sp.suf, w, seed, rnd);
  }

  // What is left of the page, once the first words are on it.
  ghost predicate Remaining(whole: Page, page: seq<Piece>, rest: Page) {
    // A let expression keeps the verifier from splitting the page into parts.
    var same := whole == Page(page + rest.pieces, rest.open, rest.seed);
    same
  }

  lemma RemainingAll(whole: Page)
    ensures Remaining(whole, [], whole)
  {
    assert [] + whole.pieces == whole.pieces;
  }

  lemma {:induction false} RemainingStep(whole: Page, page: seq<Piece>, ws: seq<Word>, n: nat, p: Prefix, w: Word,
      open: bool, seed: nat, c: Config, rnd: Random, d: Drawn, m: Page)
    requires c.total > 0 && c.servers > 0 && n > 0
    requires Remaining(whole, page, Generated(ws, n, p, w, open, seed, c, rnd))
    requires d == Pick(Followers(ws, p), 0, w, seed, rnd) &&
      (d.word != NONWORD ==> m == Mark(d.word, open, d.seed, c, rnd))
    ensures d.word == NONWORD ==> Remaining(whole, page, Finish(open, d.seed))
    ensures d.word != NONWORD ==>
      Remaining(whole, page + m.pieces, Generated(ws, n - 1, Prefix(p.second, d.word), d.word, m.open, m.seed, c, rnd))
  {
    if d.word != NONWORD {
      var rest := Generated(ws, n - 1, Prefix(p.second, d.word), d.word, m.open, m.seed, c, rnd);
      assert page + (m.pieces + rest.pieces) == page + m.pieces + rest.pieces;
    }
  }

  // One turn of the loop of generate.
  method GenerateTurn(t: TextState, ideal: IdealState?, ghost ws: seq<Word>, ghost n: nat, g: Going, c: Config,
      ghost whole: Page, ghost rnd: Random)
    returns (done: bool, g': Going)
    requires Steps(rnd)
    requires c.total > 0 && c.servers > 0 && n > 0 && Ready(t, ideal, ws)
    requires |ws| > 0 && ws[|ws| - 1] == NONWORD && Followers(ws, g.p) != []
    requires Ahead(whole, ws, n, g, c, rnd)
    ensures done ==> Followers(ws, g'.p) != [] && Remaining(whole, g'.page, Finish(g'.open, g'.seed))
    ensures !done ==> Followers(ws, g'.p) != [] && Ahead(whole, ws, n - 1, g', c, rnd)
  {
    var w, seed := DrawWord(t, ideal, ws, g.p, g.w, g.seed, rnd);
    if w == NONWORD {
      RemainingStep(whole, g.page, ws, n, g.p, g.w, g.open, g.seed, c, rnd, Drawn(w, seed), whole);
      return true, g.(w := w, seed := seed);
    }
    Closure(ws, g.p, w);
    var pieces, open, seed' := AddWord(w, g.open, seed, c, rnd);
    RemainingStep(whole, g.page, ws, n, g.p, g.w, g.open, g.seed, c, rnd, Drawn(w, seed), Page(pieces, open, seed'));
    return false, Going(g.page + pieces, Prefix(g.p.second, w), w, open, seed');
  }

  // n words are still to come, and then the page is whole.
  ghost predicate Ahead(whole: Page, ws: seq<Word>, n: nat, g: Going, c: Config, rnd: Random)
    requires c.total > 0 && c.servers > 0
  {
    // A let expression keeps the verifier from splitting the page into parts.
    var ahead := Remaining(whole, g.page, Generated(ws, n, g.p, g.w, g.open, g.seed, c, rnd));
    ahead
  }

  lemma {:induction false} AheadNothing(whole: Page, ws: seq<Word>, g: Going, c: Config, rnd: Random)
    requires c.total > 0 && c.servers > 0 && Ahead(whole, ws, 0, g, c, rnd)
    ensures Remaining(whole, g.page, Finish(g.open, g.seed))
  {
  }

  // The variables of generate: the page so far, the prefix, the last word, p_open and the seed.
  datatype Going = Going(page: seq<Piece>, p: Prefix, w: Word, open: bool, seed: nat)

  // The loop of generate, with whole the page to come.
  method GenerateLoop(t: TextState, ideal: IdealState?, ghost ws: seq<Word>, nwords: nat, start: Going, c: Config,
      ghost whole: Page, ghost rnd: Random)
    returns (g: Going)
    requires Steps(rnd)
    requires c.total > 0 && c.servers > 0 && Ready(t, ideal, ws)
    requires |ws| > 0 && ws[|ws| - 1] == NONWORD && Followers(ws, start.p) != []
    requires Ahead(whole, ws, nwords, start, c, rnd)
    ensures Remaining(whole, g.page, Finish(g.open, g.seed))
  {
    g := start;
    var left := nwords;
    while left > 0
      invariant Followers(ws, g.p) != [] && Ahead(whole, ws, left, g, c, rnd)
    {
      var done;
      done, g := GenerateTurn(t, ideal, ws, left, g, c, whole, rnd);
      if done {
        return;
      }
      left := left - 1;
    }
    AheadNothing(whole, ws, g, c, rnd);
  }

  // generate: over either table the same page and the same seed.
  method Generate(t: TextState, ideal: IdealState?, ghost text: seq<Word>, nwords: nat, seed: nat, c: Config)
    returns (page: seq<Piece>, seed': nat)
    requires c.total > 0 && c.servers > 0 && Ready(t, ideal, Padded(text))
    ensures Page(page, false, seed') ==
      Generated(Padded(text), nwords, Prefix(NONWORD, NONWORD), [], false, seed, c, MyRandR())
    ensures GoodPage(Padded(text), nwords, Prefix(NONWORD, NONWORD), false, page)
  {
    ghost var ws := Padded(text);
    FirstPrefix(text);
    var start := Going([], Prefix(NONWORD, NONWORD), [], false, seed);
    PageIsWalk(ws, nwords, start.p, start.w, start.open, seed, c, MyRandR());
    ghost var whole := Generated(ws, nwords, start.p, start.w, start.open, seed, c, MyRandR());
    RemainingAll(whole);
    var g := GenerateLoop(t, ideal, ws, nwords, start, c, whole, MyRandR());
    seed' := g.seed;
    page := if g.open then g.page + [CloseP] else g.page;
  }

  lemma FirstPrefix(text: seq<Word>)
    ensures Followers(Padded(text), Prefix(NONWORD, NONWORD)) != []
  {
    var ws := Padded(text);
    assert Occurs(ws, Prefix(NONWORD, NONWORD), ws[2], 0);
    FollowersOccur(ws, Prefix(NONWORD, NONWORD), ws[2]);
  }
}
