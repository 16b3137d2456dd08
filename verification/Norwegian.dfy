/** The Norwegian stemmer, src_c/stem_UTF_8_norwegian.c, against the rules it was generated from. */
module Norwegian {
  import opened Among
  import opened Snowball
  import opened Tables
  import opened Stemming
  import opened Utf8

  const S_ENDINGS := Group([119, 125, 149, 1], 98, 122)

  // ---------- the rules ----------

  /** The ending "s" may go after one of the letters of S_ENDINGS, or after a "k" that follows a non-vowel. */
  ghost predicate MayDropS(w: string, cut: int)
    requires 0 <= cut <= |w|
  {
    || (0 < cut && InGroup(S_ENDINGS, GetBUtf8(w, cut, 0).0))
    || (1 < cut && w[cut - 1] == 'k' && !InGroup(VOWELS, GetBUtf8(w, cut - 1, 0).0))
  }

  /** What the main suffix routine does with the entries of `v`. */
  ghost function MainRuleIn(v: seq<Entry>, w: string, p1: int): string
    requires 0 <= p1
  {
    if p1 > |w| then w
    else
      var best := LongestSuffix(v, w, p1);
      if best < 0 then w
      else
        var cut := |w| - |v[best].s|;
        match v[best].result
        case 1 => w[..cut]
        case 2 => if MayDropS(w, cut) then w[..cut] else w
        case _ => w[..cut] + "er"
  }

  ghost function MainRule(w: string, p1: int): string
    requires 0 <= p1
  {
    MainRuleIn(NorwegianMain(), w, p1)
  }

  /** After "dt" or "vt" the last character goes. */
  ghost function PairRule(w: string, p1: int): string
    requires 0 <= p1
  {
    var back := HopBack(w, |w|, 0, 1);
    if p1 > |w| || LongestSuffix(NorwegianPair(), w, p1) < 0 || back < 0 then w else w[..back]
  }

  ghost function OtherRule(w: string, p1: int): string
    requires 0 <= p1
  {
    if p1 > |w| then w
    else
      var best := LongestSuffix(NorwegianOther(), w, p1);
      if best < 0 then w else w[..|w| - |NorwegianOther()[best].s|]
  }

  ghost function StemOf(w: string): string {
    var p1 := Region(w, VOWELS);
    OtherRule(PairRule(MainRule(w, p1), p1), p1)
  }

  // ---------- what the rules promise ----------

  lemma MainRow(i: int)
    requires 0 <= i < 29
    ensures var e := NorwegianMain()[i];
      && |e.s| > 0 && e.s[|e.s| - 1] in "aenrst" && e.guard.None?
      && (e.result == 1 || e.result == 2 || (e.result == 3 && e.s[..2] == "er" && |e.s| > 2))
  {
    if i < 10 {
      match i case 0 => case 1 => case 2 => case 3 => case 4 => case 5 => case 6 => case 7 => case 8 => case _ =>
    } else if i < 20 {
      match i case 10 => case 11 => case 12 => case 13 => case 14 => case 15 =>
      case 16 => case 17 => case 18 => case _ =>
    } else {
      match i case 20 => case 21 => case 22 => case 23 => case 24 => case 25 => case 26 => case 27 => case _ =>
    }
  }

  /** The test of the last byte in front of each table: bits 5 to 7 are 011 and the low bits are in the mask. */
  predicate MainPass(b: char) {
    b as int / 32 == 3 && 1851426 / Bit(b as int % 32) % 2 == 1
  }

  predicate PairPass(b: char) {
    b as int == 116
  }

  predicate OtherPass(b: char) {
    b as int / 32 == 3 && 4718720 / Bit(b as int % 32) % 2 == 1
  }

  lemma MainPasses(b: char)
    requires b in "aenrst"
    ensures MainPass(b)
  {
    assert Bit(1) == 0x2 && Bit(5) == 0x20 && Bit(14) == 0x4000;
    assert Bit(18) == 0x40000 && Bit(19) == 0x80000 && Bit(20) == 0x100000;
  }

  lemma OtherPasses(b: char)
    requires b in "gsv"
    ensures OtherPass(b)
  {
    assert Bit(7) == 0x80 && Bit(19) == 0x80000 && Bit(22) == 0x400000;
  }

  /** The entries that are replaced by "er" begin with it. */
  ghost predicate MainEntry(e: Entry) {
    e.result == 1 || e.result == 2 || (e.result == 3 && |e.s| > 2 && e.s[..2] == "er")
  }

  lemma MainScreened()
    ensures Screened(NorwegianMain(), MainPass, 0)
    ensures forall i | 0 <= i < |NorwegianMain()| :: MainEntry(NorwegianMain()[i])
  {
    forall i | 0 <= i < 29
      ensures var e := NorwegianMain()[i];
        |e.s| > 0 && MainPass(e.s[|e.s| - 1]) && e.result != 0 && e.guard.None? && MainEntry(e)
    {
      MainRow(i);
      MainPasses(NorwegianMain()[i].s[|NorwegianMain()[i].s| - 1]);
    }
  }

  lemma PairScreened()
    ensures Screened(NorwegianPair(), PairPass, 1)
  {
  }

  lemma OtherRow(i: int)
    requires 0 <= i < 11
    ensures var e := NorwegianOther()[i]; |e.s| > 1 && e.s[|e.s| - 1] in "gsv" && e.result == 1 && e.guard.None?
  {
    match i case 0 => case 1 => case 2 => case 3 => case 4 => case 5 =>
    case 6 => case 7 => case 8 => case 9 => case _ =>
  }

  lemma OtherScreened()
    ensures Screened(NorwegianOther(), OtherPass, 1)
  {
    forall i | 0 <= i < 11
      ensures var e := NorwegianOther()[i]; |e.s| > 1 && OtherPass(e.s[|e.s| - 1]) && e.result != 0 && e.guard.None?
    {
      OtherRow(i);
      OtherPasses(NorwegianOther()[i].s[|NorwegianOther()[i].s| - 1]);
    }
  }

  /** Each rule only shortens the word, and not below p1. */
  lemma MainShortensIn(v: seq<Entry>, w: string, p1: int)
    requires 0 <= p1 && forall i | 0 <= i < |v| :: MainEntry(v[i])
    ensures MainRuleIn(v, w, p1) <= w && (p1 <= |w| ==> p1 <= |MainRuleIn(v, w, p1)|)
  {
    if p1 <= |w| {
      var best := LongestSuffix(v, w, p1);
      if best >= 0 && v[best].result == 3 {
        KeepsTwo(w, v[best].s);
      }
    }
  }

  lemma KeepsTwo(w: string, s: string)
    requires 2 <= |s| <= |w| && w[|w| - |s|..] == s
    ensures w[..|w| - |s|] + s[..2] == w[..|w| - |s| + 2]
  {
    var cut := |w| - |s|;
    assert w[cut..][..2] == s[..2];
    assert w[..cut] + w[cut..][..2] == w[..cut + 2];
  }

  lemma MainShortens(w: string, p1: int)
    requires 0 <= p1
    ensures MainRule(w, p1) <= w && (p1 <= |w| ==> p1 <= |MainRule(w, p1)|)
  {
    MainScreened();
    MainShortensIn(NorwegianMain(), w, p1);
  }

  /** Both consonant pairs end in a single-byte character. */
  lemma PairHop(w: string, p1: int)
    requires 0 <= p1 <= |w| && LongestSuffix(NorwegianPair(), w, p1) >= 0
    ensures p1 < |w| && HopBack(w, |w|, 0, 1) == |w| - 1
  {
    PairScreened();
    var s := NorwegianPair()[LongestSuffix(NorwegianPair(), w, p1)].s;
    assert w[|w| - |s|..][|s| - 1] == s[|s| - 1];
    assert w[|w| - 1] == 't';
  }

  lemma PairShortens(w: string, p1: int)
    requires 0 <= p1
    ensures PairRule(w, p1) <= w && (p1 <= |w| ==> p1 <= |PairRule(w, p1)|)
  {
    if p1 <= |w| && LongestSuffix(NorwegianPair(), w, p1) >= 0 {
      PairHop(w, p1);
    }
  }

  lemma OtherShortens(w: string, p1: int)
    requires 0 <= p1
    ensures OtherRule(w, p1) <= w && (p1 <= |w| ==> p1 <= |OtherRule(w, p1)|)
  {
  }

  /** A stem keeps the characters before p1: the hop over them also succeeds on a shorter text. */
  lemma {:induction false} SkipOnPrefix(w: string, c: int, l: int)
    requires 0 <= c <= l <= |w| && SkipContinuation(w, c, |w|) <= l
    ensures SkipContinuation(w[..l], c, l) == SkipContinuation(w, c, |w|)
    decreases |w| - c
  {
    if c < l && Continues(w[c]) {
      SkipOnPrefix(w, c + 1, l);
    }
  }

  lemma {:induction false} HopOnPrefix(w: string, c: int, l: int, n: nat)
    requires 0 <= c <= l <= |w| && 0 <= Hop(w, c, |w|, n) <= l
    ensures Hop(w[..l], c, l, n) == Hop(w, c, |w|, n)
    decreases n
  {
    if n > 0 {
      var next := if w[c] as int >= 0xC0 then SkipContinuation(w, c + 1, |w|) else c + 1;
      assert next <= Hop(w, next, |w|, n - 1);
      if w[c] as int >= 0xC0 {
        SkipOnPrefix(w, c + 1, l);
      }
      HopOnPrefix(w, next, l, n - 1);
    }
  }

  /** The stem of every word is a prefix of it, and is the whole word or at least three characters long. */
  lemma StemIsPrefix(w: string)
    ensures StemOf(w) <= w
    ensures StemOf(w) == w || Hop(StemOf(w), 0, |StemOf(w)|, 3) >= 0
  {
    var p1 := Region(w, VOWELS);
    var w1 := MainRule(w, p1);
    var w2 := PairRule(w1, p1);
    MainShortens(w, p1);
    PairShortens(w1, p1);
    OtherShortens(w2, p1);
    if StemOf(w) != w {
      assert StemOf(w) == w[..|StemOf(w)|];
      HopOnPrefix(w, 0, |StemOf(w)|, 3);
    }
  }

  // ---------- what the rules say ----------

  /** They are b, c, d, f, g, h, j, l, m, n, o, p, r, t, v, y and z. */
  lemma SLetters(ch: int)
    ensures InGroup(S_ENDINGS, ch) <==>
      ch in {98, 99, 100, 102, 103, 104, 106, 108, 109, 110, 111, 112, 114, 116, 118, 121, 122}
  {
    BitValues();
  }

  /** What becomes of a word that ends, from p1 on, with entry `i` and with no longer one. */
  lemma {:induction false} MainRuleIs(w: string, p1: int, i: int)
    requires 0 <= p1 <= |w| && 0 <= i < 29
    requires var s := NorwegianMain()[i].s; p1 <= |w| - |s| && w[|w| - |s|..] == s
    requires forall m | 0 <= m < 29 && |NorwegianMain()[i].s| < |NorwegianMain()[m].s| <= |w| - p1 ::
      w[|w| - |NorwegianMain()[m].s|..] != NorwegianMain()[m].s
    ensures var e := NorwegianMain()[i];
      var cut := |w| - |e.s|;
      && (e.result == 1 ==> MainRule(w, p1) == w[..cut])
      && (e.result == 3 ==> MainRule(w, p1) == w[..cut] + "er")
      && (e.result == 2 ==>
           MainRule(w, p1) ==
           if (cut > 0 && GetBUtf8(w, cut, 0).0 in
                 {98, 99, 100, 102, 103, 104, 106, 108, 109, 110, 111, 112, 114, 116, 118, 121, 122}) ||
              (cut > 1 && w[cut - 1] == 'k' && GetBUtf8(w, cut - 1, 0).0 !in
                 {97, 101, 105, 111, 117, 121, 229, 230, 248})
           then w[..cut] else w)
  {
    NorwegianMainInOrder();
    LongestIs(NorwegianMain(), w, p1, i);
    var cut := |w| - |NorwegianMain()[i].s|;
    if cut > 0 {
      SLetters(GetBUtf8(w, cut, 0).0);
      VowelLetters(GetBUtf8(w, cut - 1, 0).0);
    }
  }

  /** In characters: the ending "s" goes after one of these letters, and after a "k" behind a non-vowel. */
  lemma {:induction false} MainRuleAtS(cs: seq<Point>, p1: int, w: string)
    requires w == Encode(cs) + "s" && 0 <= p1 < |w|
    requires forall m | 0 <= m < 29 && 1 < |NorwegianMain()[m].s| <= |w| - p1 ::
      w[|w| - |NorwegianMain()[m].s|..] != NorwegianMain()[m].s
    ensures MainRule(w, p1) ==
      if cs != [] && (cs[|cs| - 1] in
            {98, 99, 100, 102, 103, 104, 106, 108, 109, 110, 111, 112, 114, 116, 118, 121, 122} ||
          (cs[|cs| - 1] == 107 && |cs| > 1 && cs[|cs| - 2] !in {97, 101, 105, 111, 117, 121, 229, 230, 248}))
      then Encode(cs) else w
  {
    assert NorwegianMain()[14].s == "s" && NorwegianMain()[14].result == 2;
    MainRuleIs(w, p1, 14);
    assert w[..|w| - 1] == Encode(cs);
    if cs != [] {
      BeforeS(cs, w);
    }
  }

  lemma {:induction false} BeforeS(cs: seq<Point>, w: string)
    requires w == Encode(cs) + "s" && cs != []
    ensures Encode(cs) != ""
    ensures
      GetBUtf8(w, |w| - 1, 0).0 in
        {98, 99, 100, 102, 103, 104, 106, 108, 109, 110, 111, 112, 114, 116, 118, 121, 122} <==>
      cs[|cs| - 1] in {98, 99, 100, 102, 103, 104, 106, 108, 109, 110, 111, 112, 114, 116, 118, 121, 122}
    ensures |w| - 1 > 1 && w[|w| - 2] == 'k' ==> cs[|cs| - 1] == 107
    ensures cs[|cs| - 1] == 107 ==> w[|w| - 2] == 'k' && (|w| - 1 > 1 <==> |cs| > 1)
    ensures cs[|cs| - 1] == 107 && |cs| > 1 ==>
      (GetBUtf8(w, |w| - 2, 0).0 in {97, 101, 105, 111, 117, 121, 229, 230, 248} <==>
       cs[|cs| - 2] in {97, 101, 105, 111, 117, 121, 229, 230, 248})
  {
    ReadsLast(cs, "s", 0);
    LastByte(cs, 'k');
    var less := cs[..|cs| - 1];
    if cs[|cs| - 1] == 107 && less != [] {
      BeforeKs(less, w);
    }
  }

  lemma {:induction false} BeforeKs(less: seq<Point>, w: string)
    requires less != [] && w == Encode(less) + One(107) + "s"
    ensures |w| - 1 > 1
    ensures GetBUtf8(w, |w| - 2, 0).0 in {97, 101, 105, 111, 117, 121, 229, 230, 248} <==>
      less[|less| - 1] in {97, 101, 105, 111, 117, 121, 229, 230, 248}
  {
    ReadsLast(less, One(107) + "s", 0);
    assert w == Encode(less) + (One(107) + "s");
  }

  lemma {:induction false} MainRuleIsNone(w: string, p1: int)
    requires 0 <= p1
    requires forall m | 0 <= m < 29 && |NorwegianMain()[m].s| <= |w| - p1 ::
      w[|w| - |NorwegianMain()[m].s|..] != NorwegianMain()[m].s
    ensures MainRule(w, p1) == w
  {
    if p1 <= |w| {
      LongestIsNone(NorwegianMain(), w, p1);
    }
  }

  lemma {:induction false} PairRuleIs(w: string, p1: int)
    requires 0 <= p1
    ensures PairRule(w, p1) == if p1 + 2 <= |w| && w[|w| - 2..] in ["dt", "vt"] then w[..|w| - 1] else w
  {
    if p1 + 2 <= |w| && w[|w| - 2..] in ["dt", "vt"] {
      assert EndsIn(w, p1, NorwegianPair()[if w[|w| - 2..] == "dt" then 0 else 1].s);
      PairHop(w, p1);
    } else if p1 <= |w| {
      LongestIsNone(NorwegianPair(), w, p1);
    }
  }

  lemma {:induction false} OtherRuleIs(w: string, p1: int, i: int)
    requires 0 <= p1 <= |w| && 0 <= i < 11
    requires var s := NorwegianOther()[i].s; p1 <= |w| - |s| && w[|w| - |s|..] == s
    requires forall m | 0 <= m < 11 && |NorwegianOther()[i].s| < |NorwegianOther()[m].s| <= |w| - p1 ::
      w[|w| - |NorwegianOther()[m].s|..] != NorwegianOther()[m].s
    ensures OtherRule(w, p1) == w[..|w| - |NorwegianOther()[i].s|]
  {
    NorwegianOtherInOrder();
    LongestIs(NorwegianOther(), w, p1, i);
  }

  lemma {:induction false} OtherRuleIsNone(w: string, p1: int)
    requires 0 <= p1
    requires forall m | 0 <= m < 11 && |NorwegianOther()[m].s| <= |w| - p1 ::
      w[|w| - |NorwegianOther()[m].s|..] != NorwegianOther()[m].s
    ensures OtherRule(w, p1) == w
  {
    if p1 <= |w| {
      LongestIsNone(NorwegianOther(), w, p1);
    }
  }

  /** The house becomes house. */
  lemma {:induction false} StemOfHuset()
    ensures StemOf("huset") == "hus"
  {
    var w := "huset";
    PlainRegion(w, 1, 2);
    assert NorwegianMain()[25].s == "et" && NorwegianMain()[25].result == 1;
    assert w[3..] == "et" && w[..3] == "hus";
    MainRuleIs(w, 3, 25);
    PairRuleIs("hus", 3);
    forall m | 0 <= m < 11
      ensures |NorwegianOther()[m].s| > 1
    {
      OtherRow(m);
    }
    OtherRuleIsNone("hus", 3);
  }

  // ---------- the code ----------

  /** The condition of r_main_suffix for the ending "s"; the slice stays as it is. */
  method AllowsDroppingS(z: SnEnv) returns (may: bool)
    requires z.Valid() && z.lb == 0
    modifies z`c
    ensures z.Valid() && may == MayDropS(z.p, old(z.c))
  {
    var m2 := z.l - z.c;
    var r := z.GroupingBU(true, S_ENDINGS, false);
    if r == 0 {
      return true;
    }
    z.c := z.l - m2;
    var k := z.EqSB("k");
    if !k {
      return false;
    }
    r := z.GroupingBU(false, VOWELS, false);
    return r == 0;
  }

  /** r_main_suffix, for any table whose entries are of the three kinds. */
  method MainSuffixIn(z: SnEnv, v: seq<Entry>) returns (ret: int)
    requires AtEnd(z) && 0 <= z.p1
    requires TableOk(Backward(v), v) && Screened(v, MainPass, 0) && forall i | 0 <= i < |v| :: MainEntry(v[i])
    modifies z`p, z`c, z`l, z`lb, z`bra, z`ket
    ensures z.p == MainRuleIn(v, old(z.p), z.p1) && z.lb == 0 && z.l == |z.p| && 0 <= z.c <= z.l && ret >= 0
  {
    var found := FindSuffix(z, v, MainPass, 0);
    if found == 0 {
      return 0;
    }
    assert MainEntry(v[LongestSuffix(v, z.p, z.p1)]);
    if found == 1 {
      ret := z.SliceDel();
    } else if found == 2 {
      var may := AllowsDroppingS(z);
      if !may {
        return 0;
      }
      ret := z.SliceDel();
    } else {
      ret := z.SliceFromS("er");
    }
    if ret < 0 {
      return;
    }
    return 1;
  }

  method MainSuffix(z: SnEnv) returns (ret: int)
    requires AtEnd(z) && 0 <= z.p1
    modifies z`p, z`c, z`l, z`lb, z`bra, z`ket
    ensures z.p == MainRule(old(z.p), z.p1) && z.lb == 0 && z.l == |z.p| && 0 <= z.c <= z.l && ret >= 0
  {
    NorwegianMainInOrder();
    MainScreened();
    ret := MainSuffixIn(z, NorwegianMain());
  }

  /** r_consonant_pair. */
  method ConsonantPair(z: SnEnv) returns (ret: int)
    requires AtEnd(z) && 0 <= z.p1
    modifies z`p, z`c, z`l, z`lb, z`bra, z`ket
    ensures z.p == PairRule(old(z.p), z.p1) && z.lb == 0 && z.l == |z.p| && 0 <= z.c <= z.l && ret >= 0
  {
    NorwegianPairInOrder();
    PairScreened();
    PairHops(z.p, z.p1);
    ret := DropPair(z, NorwegianPair(), PairPass);
  }

  lemma PairHops(w: string, p1: int)
    requires 0 <= p1
    ensures p1 <= |w| && LongestSuffix(NorwegianPair(), w, p1) >= 0 ==> HopBack(w, |w|, 0, 1) >= 0
  {
    if p1 <= |w| && LongestSuffix(NorwegianPair(), w, p1) >= 0 {
      PairHop(w, p1);
    }
  }

  /** r_other_suffix. */
  method OtherSuffix(z: SnEnv) returns (ret: int)
    requires AtEnd(z) && 0 <= z.p1
    modifies z`p, z`c, z`l, z`lb, z`bra, z`ket
    ensures z.p == OtherRule(old(z.p), z.p1) && z.lb == 0 && z.l == |z.p| && 0 <= z.c <= z.l && ret >= 0
  {
    NorwegianOtherInOrder();
    OtherScreened();
    ghost var w := z.p;
    var found := FindSuffix(z, NorwegianOther(), OtherPass, 1);
    if found == 0 {
      return 0;
    }
    OtherRow(LongestSuffix(NorwegianOther(), w, z.p1));
    if found == 1 {
      ret := z.SliceDel();
      if ret < 0 {
        return;
      }
    }
    return 1;
  }

  /** norwegian_UTF_8_stem: the word in `z` becomes its stem. */
  method Stem(z: SnEnv) returns (ret: int)
    requires z.c == z.lb == 0 && z.l == |z.p|
    modifies z
    ensures ret == 1 && z.p == StemOf(old(z.p)) && z.c == z.lb == 0 && z.l == |z.p|
    ensures var p1 := Region(old(z.p), VOWELS); z.p == OtherRule(PairRule(MainRule(old(z.p), p1), p1), p1)
  {
    var c1 := z.c;
    ret := MarkRegions(z, VOWELS);
    z.c := c1;
    z.lb := z.c;
    z.c := z.l;

    var m := z.l - z.c;
    ret := MainSuffix(z);
    if ret < 0 {
      return;
    }
    z.c := z.l - m;
    ret := ConsonantPair(z);
    if ret < 0 {
      return;
    }
    z.c := z.l - m;
    ret := OtherSuffix(z);
    if ret < 0 {
      return;
    }
    z.c := z.l - m;
    z.c := z.lb;
    return 1;
  }
}
