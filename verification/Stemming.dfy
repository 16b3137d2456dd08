/** What the generated Scandinavian stemmers share: the region p1 and the search for a suffix within it. */
module Stemming {
  import opened Among
  import opened Snowball
  import opened Utf8

  /** Where the suffixes may begin: after the first non-vowel that follows a vowel, but not within the first three
      characters. */
  ghost function Region(w: string, vowels: Group): (p1: int)
    ensures 0 <= p1 <= |w|
    ensures p1 == |w| || (Hop(w, 0, |w|, 3) >= 0 && p1 >= Hop(w, 0, |w|, 3))
  {
    var x := Hop(w, 0, |w|, 3);
    var vowel := RunEnd(w, 0, |w|, vowels, false);
    var after := RunEnd(w, vowel, |w|, vowels, true);
    if x < 0 || vowel == |w| || after == |w| then |w|
    else
      var p1 := after + GetUtf8(w, after, |w|).1;
      if p1 < x then x else p1
  }

  /** The part of `w` from `p1` on ends with `s`. */
  predicate EndsIn(w: string, p1: int, s: string)
    requires 0 <= p1 <= |w|
  {
    |s| <= |w| - p1 && w[|w| - |s|..] == s
  }

  /** The longest of the first `n` entries of `v` that ends `w` without reaching back beyond `p1`; -1 if
      there is none. */
  ghost function LongestAmong(v: seq<Entry>, w: string, p1: int, n: nat): (best: int)
    requires 0 <= p1 <= |w| && n <= |v|
    ensures -1 <= best < n
    ensures best >= 0 ==> EndsIn(w, p1, v[best].s)
    ensures forall m {:trigger EndsIn(w, p1, v[m].s)} | 0 <= m < n && EndsIn(w, p1, v[m].s) ::
      best >= 0 && |v[m].s| <= |v[best].s|
  {
    if n == 0 then -1
    else
      var best := LongestAmong(v, w, p1, n - 1);
      if EndsIn(w, p1, v[n - 1].s) && (best < 0 || |v[best].s| < |v[n - 1].s|) then n - 1 else best
  }

  ghost function LongestSuffix(v: seq<Entry>, w: string, p1: int): (best: int)
    requires 0 <= p1 <= |w|
    ensures -1 <= best < |v|
    ensures best >= 0 ==> EndsIn(w, p1, v[best].s)
    ensures forall m {:trigger EndsIn(w, p1, v[m].s)} | 0 <= m < |v| && EndsIn(w, p1, v[m].s) ::
      best >= 0 && |v[m].s| <= |v[best].s|
  {
    LongestAmong(v, w, p1, |v|)
  }

  /** It is what a scan of the reversed keys finds if no entry has a guard. */
  lemma {:induction false} LongestIsScan(v: seq<Entry>, w: string, p1: int, n: nat, z: Cursor)
    requires 0 <= p1 <= |w| && n <= |v| && forall i | 0 <= i < |v| :: v[i].guard.None?
    ensures LongestAmong(v, w, p1, n) == Scan(Backward(v), AcceptsBackward(v, z), Reversed(w[p1..]), n)
    decreases n
  {
    if n > 0 {
      LongestIsScan(v, w, p1, n - 1, z);
      SuffixOf(w, p1, v[n - 1].s);
    }
  }

  lemma SuffixOf(w: string, p1: int, s: string)
    requires 0 <= p1 <= |w|
    ensures Reversed(s) <= Reversed(w[p1..]) <==> EndsIn(w, p1, s)
  {
    var q := Reversed(w[p1..]);
    if Reversed(s) <= q {
      forall k | 0 <= k < |s| ensures w[|w| - |s| + k] == s[k] {
        assert Reversed(s)[|s| - 1 - k] == q[|s| - 1 - k];
      }
    }
    if |s| <= |w| - p1 && w[|w| - |s|..] == s {
      forall k | 0 <= k < |s| ensures Reversed(s)[k] == q[k] {
        assert w[|w| - |s|..][|s| - 1 - k] == s[|s| - 1 - k];
      }
    }
  }

  const VOWELS := Group([17, 65, 16, 1, 0, 0, 0, 0, 0, 0, 0, 0, 0, 0, 0, 0, 48, 0, 128], 97, 248)

  lemma BitValues()
    ensures Bit(0) == 1 && Bit(1) == 2 && Bit(2) == 4 && Bit(3) == 8
    ensures Bit(4) == 16 && Bit(5) == 32 && Bit(6) == 64 && Bit(7) == 128
  {
    assert Bit(4) == 2 * Bit(3);
    assert Bit(6) == 2 * Bit(5);
  }

  /** They are a, e, i, o, u, y, and a with ring, ae and o with stroke. */
  lemma VowelLetters(ch: int)
    ensures InGroup(VOWELS, ch) <==> ch in {97, 101, 105, 111, 117, 121, 229, 230, 248}
  {
    BitValues();
  }

  /** Where the vowels of the word begin and where they end. */
  lemma {:induction false} FirstVowels(cs: seq<Point>, i: nat, j: nat)
    requires i <= j <= |cs| && forall k | 0 <= k < i :: !InGroup(VOWELS, cs[k])
    requires forall k | i <= k < j :: InGroup(VOWELS, cs[k])
    requires i < |cs| ==> i < j
    requires j < |cs| ==> !InGroup(VOWELS, cs[j])
    ensures var w := Encode(cs);
      && |Encode(cs[..i])| <= |w|
      && RunEnd(w, 0, |w|, VOWELS, false) == |Encode(cs[..i])|
      && RunEnd(w, |Encode(cs[..i])|, |w|, VOWELS, true) == |Encode(cs[..j])|
      && Hop(w, 0, |w|, 3) == if 3 <= |cs| then |Encode(cs[..3])| else -1
  {
    assert cs[..0] == [] && "" + Encode(cs) == Encode(cs);
    Runs(cs, 0, i, VOWELS, false);
    Runs(cs, i, j, VOWELS, true);
    Hops("", cs, 3);
  }

  lemma {:induction false} Longer(cs: seq<Point>, i: nat, j: nat)
    requires i <= j <= |cs|
    ensures |Encode(cs[..i])| <= |Encode(cs[..j])| && (i < j ==> |Encode(cs[..i])| < |Encode(cs[..j])|)
  {
    if i < j {
      Longer(cs, i, j - 1);
      Parted(cs, j - 1);
    }
  }

  /** In a word whose first vowel is character `i`, and whose first non-vowel behind that is character `j`, the region
      begins behind `j`, but not within the first three characters. */
  lemma {:induction false} RegionIs(cs: seq<Point>, i: nat, j: nat)
    requires i < j < |cs| && 3 <= |cs|
    requires forall k | 0 <= k < i :: cs[k] !in {97, 101, 105, 111, 117, 121, 229, 230, 248}
    requires forall k | i <= k < j :: cs[k] in {97, 101, 105, 111, 117, 121, 229, 230, 248}
    requires cs[j] !in {97, 101, 105, 111, 117, 121, 229, 230, 248}
    ensures Region(Encode(cs), VOWELS) == |Encode(cs[..if j < 3 then 3 else j + 1])|
  {
    AllVowelLetters(cs);
    FirstVowels(cs, i, j);
    Longer(cs, i, |cs|);
    Longer(cs, j, |cs|);
    assert cs[..|cs|] == cs;
    Parted(cs, j);
    ReadsForward(Encode(cs[..j]), cs[j], Encode(cs[j + 1..]), |Encode(cs)|);
    if j < 3 {
      Longer(cs, j + 1, 3);
    } else {
      Longer(cs, 3, j + 1);
    }
  }

  /** In a shorter word, or one with no such character, the region is empty. */
  lemma {:induction false} NoRegion(cs: seq<Point>, i: nat)
    requires i <= |cs|
    requires |cs| < 3 ||
      ((forall k | 0 <= k < i :: cs[k] !in {97, 101, 105, 111, 117, 121, 229, 230, 248}) &&
       (forall k | i <= k < |cs| :: cs[k] in {97, 101, 105, 111, 117, 121, 229, 230, 248}))
    ensures Region(Encode(cs), VOWELS) == |Encode(cs)|
  {
    if |cs| < 3 {
      assert "" + Encode(cs) == Encode(cs);
      Hops("", cs, 3);
    } else {
      AllVowelLetters(cs);
      FirstVowels(cs, i, |cs|);
      assert cs[..|cs|] == cs;
    }
  }

  lemma AllVowelLetters(cs: seq<Point>)
    ensures forall k | 0 <= k < |cs| ::
      InGroup(VOWELS, cs[k]) <==> cs[k] in {97, 101, 105, 111, 117, 121, 229, 230, 248}
  {
    forall k | 0 <= k < |cs|
      ensures InGroup(VOWELS, cs[k]) <==> cs[k] in {97, 101, 105, 111, 117, 121, 229, 230, 248}
    {
      VowelLetters(cs[k]);
    }
  }

  /** The same in a word of single bytes. */
  lemma {:induction false} PlainRegion(w: string, i: nat, j: nat)
    requires i < j < |w| && 3 <= |w| && forall k | 0 <= k < |w| :: w[k] as int < 0x80
    requires forall k | 0 <= k < i :: w[k] !in "aeiouy"
    requires forall k | i <= k < j :: w[k] in "aeiouy"
    requires w[j] !in "aeiouy"
    ensures Region(w, VOWELS) == if j < 3 then 3 else j + 1
  {
    var cs, n := Points(w), if j < 3 then 3 else j + 1;
    forall k | 0 <= k < |w|
      ensures w[k] in "aeiouy" <==> cs[k] in {97, 101, 105, 111, 117, 121, 229, 230, 248}
    {
      PlainVowel(w[k]);
    }
    RegionIs(cs, i, j);
    EncodesPoints(w);
    EncodesPoints(w[..n]);
    assert Points(w[..n]) == cs[..n];
  }

  lemma PlainVowel(ch: char)
    requires ch as int < 0x80
    ensures ch in "aeiouy" <==> ch as int in {97, 101, 105, 111, 117, 121, 229, 230, 248}
  {
    assert 'a' as int == 97 && 'e' as int == 101 && 'i' as int == 105 && 'o' as int == 111;
    assert 'u' as int == 117 && 'y' as int == 121;
  }

  /** The one of the longest entries is found that ends the word without reaching back beyond `p1`. */
  lemma {:induction false} LongestIs(v: seq<Entry>, w: string, p1: int, i: int)
    requires TableOk(Backward(v), v) && 0 <= p1 <= |w| && 0 <= i < |v|
    requires p1 <= |w| - |v[i].s| && w[|w| - |v[i].s|..] == v[i].s
    requires forall m | 0 <= m < |v| && |v[i].s| < |v[m].s| <= |w| - p1 :: w[|w| - |v[m].s|..] != v[m].s
    ensures LongestSuffix(v, w, p1) == i
  {
    var best := LongestSuffix(v, w, p1);
    assert EndsIn(w, p1, v[i].s);
    assert |v[best].s| == |v[i].s| && v[best].s == v[i].s;
    var keys := Backward(v);
    if best != i {
      assert keys[best] == keys[i];
      if best < i {
        assert Before(keys[best], keys[i]);
      } else {
        assert Before(keys[i], keys[best]);
      }
      BeforeAsymmetric(keys[best], keys[i]);
    }
  }

  lemma {:induction false} LongestIsNone(v: seq<Entry>, w: string, p1: int)
    requires 0 <= p1 <= |w|
    requires forall m | 0 <= m < |v| && |v[m].s| <= |w| - p1 :: w[|w| - |v[m].s|..] != v[m].s
    ensures LongestSuffix(v, w, p1) == -1
  {
    var best := LongestSuffix(v, w, p1);
  }

  // ---------- the code ----------

  /** The state in which each routine of a stemmer starts: the whole word, read backwards from its end. */
  ghost predicate AtEnd(z: SnEnv)
    reads z
  {
    z.lb == 0 && z.c == z.l == |z.p|
  }

  /** r_mark_regions. */
  method MarkRegions(z: SnEnv, vowels: Group) returns (ret: int)
    requires z.c == z.lb == 0 && z.l == |z.p|
    modifies z`c, z`p1, z`x
    ensures z.p1 == Region(z.p, vowels) && 0 <= ret <= 1 && z.Valid()
  {
    z.p1 := z.l;
    var cTest := z.c;
    var hop := SkipUtf8(z.p, z.c, 0, z.l, 3);
    if hop < 0 {
      return 0;
    }
    z.c := hop;
    z.x := z.c;
    z.c := cTest;
    var found := z.GroupingU(false, vowels, true);
    if found < 0 {
      return 0;
    }
    var past := z.GroupingU(true, vowels, true);
    if past < 0 {
      return 0;
    }
    z.c := z.c + past;
    z.p1 := z.c;
    if z.p1 < z.x {
      z.p1 := z.x;
    }
    return 1;
  }

  /** The last byte of every entry passes the test that the code makes before it searches the table. */
  ghost predicate Screened(v: seq<Entry>, pass: char -> bool, least: int) {
    forall i | 0 <= i < |v| ::
      && |v[i].s| > least && |v[i].s| > 0 && pass(v[i].s[|v[i].s| - 1])
      && v[i].result != 0 && v[i].guard.None?
  }

  /** A word whose last byte does not pass has no suffix in the table, nor has one that is too short. */
  lemma ScreenIsSound(v: seq<Entry>, pass: char -> bool, least: int, w: string, p1: int)
    requires 0 <= p1 <= |w| && 0 <= least && Screened(v, pass, least)
    requires |w| - least <= p1 || !pass(w[|w| - 1])
    ensures LongestSuffix(v, w, p1) < 0
  {
    var best := LongestSuffix(v, w, p1);
  }

  /** The slice is set around the suffix `best` of the table, which stands for `found`. */
  ghost predicate SliceAround(z: SnEnv, v: seq<Entry>, found: int, best: int)
    reads z
  {
    && 0 <= best < |v| && found == v[best].result
    && z.bra == z.c == |z.p| - |v[best].s| && z.ket == |z.p|
  }

  /** The search behind the end of the word with the backward limit at p1. */
  method SearchSuffix(z: SnEnv, v: seq<Entry>) returns (found: int)
    requires 0 <= z.lb <= z.c == z.l == |z.p| && TableOk(Backward(v), v)
    requires forall i | 0 <= i < |v| :: v[i].guard.None?
    modifies z`c
    ensures var best := LongestSuffix(v, z.p, z.lb);
      if best >= 0 then found == v[best].result && z.c == |z.p| - |v[best].s| else found == 0
    ensures z.lb <= z.c <= z.l
  {
    assert z.p[z.lb..z.c] == z.p[z.lb..];
    LongestIsScan(v, z.p, z.lb, |v|, z.View());
    found := z.FindAmongB(v);
  }

  /**
    The block that opens every suffix routine: the search is limited to the text from p1 on, a test
    of the last byte comes first, and the slice is set around the suffix found.
  */
  method FindSuffix(z: SnEnv, v: seq<Entry>, pass: char -> bool, least: int) returns (found: int)
    requires AtEnd(z) && 0 <= z.p1 && 0 <= least && TableOk(Backward(v), v) && Screened(v, pass, least)
    modifies z`c, z`lb, z`bra, z`ket
    ensures z.lb == 0 && z.Valid()
    ensures found == 0 ==> z.p1 > |z.p| || LongestSuffix(v, z.p, z.p1) < 0
    ensures found != 0 ==> z.p1 <= |z.p| && SliceAround(z, v, found, LongestSuffix(v, z.p, z.p1))
  {
    var m1 := z.l - z.c;
    if z.c < z.p1 {
      return 0;
    }
    z.c := z.p1;
    var mlimit := z.lb;
    z.lb := z.c;
    z.c := z.l - m1;
    z.ket := z.c;
    if z.c - least <= z.lb || !pass(z.p[z.c - 1]) {
      ScreenIsSound(v, pass, least, z.p, z.p1);
      z.lb := mlimit;
      return 0;
    }
    found := SearchSuffix(z, v);
    if found == 0 {
      z.lb := mlimit;
      return 0;
    }
    z.bra := z.c;
    z.lb := mlimit;
  }

  /** The end of r_consonant_pair: the character before the mark goes. */
  method DropCharacter(z: SnEnv, mTest: int) returns (ret: int)
    requires z.lb == 0 && z.l == |z.p| == z.ket && mTest == 0 && HopBack(z.p, |z.p|, 0, 1) >= 0
    modifies z`p, z`c, z`l, z`bra
    ensures z.p == old(z.p)[..HopBack(old(z.p), |old(z.p)|, 0, 1)] && z.l == |z.p| && 0 <= z.c <= z.l && ret == 1
  {
    z.c := z.l - mTest;
    var back := SkipUtf8(z.p, z.c, z.lb, 0, -1);
    if back < 0 {
      return 0;
    }
    z.c := back;
    z.bra := z.c;
    ret := z.SliceDel();
    if ret < 0 {
      return;
    }
    return 1;
  }

  /** r_consonant_pair for the table `v`: after a pair the last character goes. */
  method DropPair(z: SnEnv, v: seq<Entry>, pass: char -> bool) returns (ret: int)
    requires AtEnd(z) && 0 <= z.p1 && TableOk(Backward(v), v) && Screened(v, pass, 1)
    requires z.p1 <= |z.p| && LongestSuffix(v, z.p, z.p1) >= 0 ==> HopBack(z.p, |z.p|, 0, 1) >= 0
    modifies z`p, z`c, z`l, z`lb, z`bra, z`ket
    ensures z.p == if z.p1 > |old(z.p)| || LongestSuffix(v, old(z.p), z.p1) < 0 then old(z.p)
      else old(z.p)[..HopBack(old(z.p), |old(z.p)|, 0, 1)]
    ensures z.lb == 0 && z.l == |z.p| && 0 <= z.c <= z.l && ret >= 0
  {
    var mTest := z.l - z.c;
    var found := FindSuffix(z, v, pass, 1);
    if found == 0 {
      return 0;
    }
    ret := DropCharacter(z, mTest);
  }
}
