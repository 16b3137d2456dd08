/** The Danish stemmer, src_c/stem_UTF_8_danish.c, against the rules it was generated from. */
module Danish {
  import opened Among
  import opened Snowball
  import opened Tables
  import opened Stemming
  import opened Utf8

  const S_ENDINGS := Group([239, 254, 42, 3, 0, 0, 0, 0, 0, 0, 0, 0, 0, 0, 0, 0, 16], 97, 229)

  /** The bytes of l, o with stroke, s. */
  const LOS := "l\U{c3}\U{b8}s"

  // ---------- the rules ----------

  /** What the main suffix routine does with the entries of `v`. */
  ghost function MainRuleIn(v: seq<Entry>, w: string, p1: int): string
    requires 0 <= p1
  {
    if p1 > |w| then w
    else
      var best := LongestSuffix(v, w, p1);
      if best < 0 then w
      else
        var cut := |w| - |v[best].s|;
        if v[best].result == 1 || (0 < cut && InGroup(S_ENDINGS, GetBUtf8(w, cut, 0).0)) then w[..cut] else w
  }

  ghost function MainRule(w: string, p1: int): string
    requires 0 <= p1
  {
    MainRuleIn(DanishMain(), w, p1)
  }

  /** After "gd", "dt", "gt" or "kt" the last character goes. */
  ghost function PairRule(w: string, p1: int): string
    requires 0 <= p1
  {
    var back := HopBack(w, |w|, 0, 1);
    if p1 > |w| || LongestSuffix(DanishPair(), w, p1) < 0 || back < 0 then w else w[..back]
  }

  /** "igst" loses its "st", wherever the region begins. */
  ghost function IgstRule(w: string): string {
    if Igst(w) then w[..|w| - 2] else w
  }

  ghost predicate Igst(w: string) {
    |w| >= 4 && w[|w| - 4..] == "igst"
  }

  ghost function OtherRuleIn(v: seq<Entry>, w: string, p1: int): string
    requires 0 <= p1
  {
    if p1 > |w| then w
    else
      var best := LongestSuffix(v, w, p1);
      if best < 0 then w
      else
        var cut := |w| - |v[best].s|;
        if v[best].result == 1 then PairRule(w[..cut], p1) else w[..cut] + LOS
  }

  ghost function OtherRule(w: string, p1: int): string
    requires 0 <= p1
  {
    OtherRuleIn(DanishOther(), IgstRule(w), p1)
  }

  /** Of a doubled consonant at the end one goes. */
  ghost function UndoubleRule(w: string, p1: int): string
    requires 0 <= p1
  {
    if p1 >= |w| then w
    else
      var (ch, width) := GetBUtf8(w, |w|, p1);
      if InGroup(VOWELS, ch) then w else TwinDropped(w, |w| - width)
  }

  // The text from `cut` on goes if it stands in front of `cut` as well.
  ghost function TwinDropped(w: string, cut: nat): string
    requires cut <= |w|
  {
    var width := |w| - cut;
    if cut < width || w[cut - width..cut] != w[cut..] then w else w[..cut]
  }

  ghost function StemOf(w: string): string {
    var p1 := Region(w, VOWELS);
    UndoubleRule(OtherRule(PairRule(MainRule(w, p1), p1), p1), p1)
  }

  // ---------- what the rules promise ----------

  lemma MainRow(i: int)
    requires 0 <= i < 32
    ensures var e := DanishMain()[i];
      |e.s| > 0 && e.s[|e.s| - 1] in "denrst" && e.guard.None? && (e.result == 1 || e.result == 2)
  {
    if i < 11 {
      match i case 0 => case 1 => case 2 => case 3 => case 4 => case 5 =>
      case 6 => case 7 => case 8 => case 9 => case _ =>
    } else if i < 22 {
      match i case 11 => case 12 => case 13 => case 14 => case 15 => case 16 =>
      case 17 => case 18 => case 19 => case 20 => case _ =>
    } else {
      match i case 22 => case 23 => case 24 => case 25 => case 26 => case 27 =>
      case 28 => case 29 => case 30 => case _ =>
    }
  }

  lemma PairRow(i: int)
    requires 0 <= i < 4
    ensures var e := DanishPair()[i]; |e.s| == 2 && e.s[1] in "dt" && e.guard.None? && e.result == -1
  {
    match i case 0 => case 1 => case 2 => case _ =>
  }

  lemma OtherRow(i: int)
    requires 0 <= i < 5
    ensures var e := DanishOther()[i];
      && |e.s| > 1 && e.s[|e.s| - 1] in "gst" && e.guard.None?
      && (e.result == 1 || (e.result == 2 && |e.s| == 5 && e.s[..4] == LOS))
  {
    match i case 0 => case 1 => case 2 => case 3 => case _ =>
  }

  /** The test of the last byte in front of each table. */
  predicate MainPass(b: char) {
    b as int / 32 == 3 && 1851440 / Bit(b as int % 32) % 2 == 1
  }

  predicate PairPass(b: char) {
    b as int == 100 || b as int == 116
  }

  predicate OtherPass(b: char) {
    b as int / 32 == 3 && 1572992 / Bit(b as int % 32) % 2 == 1
  }

  lemma MainPasses(b: char)
    requires b in "denrst"
    ensures MainPass(b)
  {
    assert Bit(4) == 0x10 && Bit(5) == 0x20 && Bit(14) == 0x4000;
    assert Bit(18) == 0x40000 && Bit(19) == 0x80000 && Bit(20) == 0x100000;
  }

  lemma OtherPasses(b: char)
    requires b in "gst"
    ensures OtherPass(b)
  {
    assert Bit(7) == 0x80 && Bit(19) == 0x80000 && Bit(20) == 0x100000;
  }

  ghost predicate MainEntry(e: Entry) {
    e.result == 1 || e.result == 2
  }

  /** The entry that is replaced begins with its replacement. */
  ghost predicate OtherEntry(e: Entry) {
    e.result == 1 || (e.result == 2 && |e.s| > 4 && e.s[..4] == LOS)
  }

  lemma MainScreened()
    ensures Screened(DanishMain(), MainPass, 0)
    ensures forall i | 0 <= i < |DanishMain()| :: MainEntry(DanishMain()[i])
  {
    forall i | 0 <= i < 32
      ensures var e := DanishMain()[i];
        |e.s| > 0 && MainPass(e.s[|e.s| - 1]) && e.result != 0 && e.guard.None? && MainEntry(e)
    {
      MainRow(i);
      MainPasses(DanishMain()[i].s[|DanishMain()[i].s| - 1]);
    }
  }

  lemma PairScreened()
    ensures Screened(DanishPair(), PairPass, 1)
  {
    forall i | 0 <= i < 4
      ensures var e := DanishPair()[i]; |e.s| > 1 && PairPass(e.s[|e.s| - 1]) && e.result != 0 && e.guard.None?
    {
      PairRow(i);
    }
  }

  lemma OtherScreened()
    ensures Screened(DanishOther(), OtherPass, 1)
    ensures forall i | 0 <= i < |DanishOther()| :: OtherEntry(DanishOther()[i])
  {
    forall i | 0 <= i < 5
      ensures var e := DanishOther()[i];
        |e.s| > 1 && OtherPass(e.s[|e.s| - 1]) && e.result != 0 && e.guard.None? && OtherEntry(e)
    {
      OtherRow(i);
      OtherPasses(DanishOther()[i].s[|DanishOther()[i].s| - 1]);
    }
  }

  /** All consonant pairs end in a single-byte character. */
  lemma PairHop(w: string, p1: int)
    requires 0 <= p1 <= |w| && LongestSuffix(DanishPair(), w, p1) >= 0
    ensures p1 < |w| && HopBack(w, |w|, 0, 1) == |w| - 1
  {
    var best := LongestSuffix(DanishPair(), w, p1);
    PairRow(best);
    assert w[|w| - 2..][1] == DanishPair()[best].s[1];
  }

  lemma OtherShortensIn(v: seq<Entry>, w: string, p1: int)
    requires 0 <= p1 && forall i | 0 <= i < |v| :: OtherEntry(v[i])
    ensures OtherRuleIn(v, w, p1) <= w
  {
    if p1 <= |w| {
      var best := LongestSuffix(v, w, p1);
      if best >= 0 {
        var s := v[best].s;
        var cut := |w| - |s|;
        if v[best].result == 1 {
          PairShortens(w[..cut], p1);
        } else {
          assert w[cut..][..4] == s[..4];
          assert w[..cut] + s[..4] == w[..cut + 4];
        }
      }
    }
  }

  lemma OtherShortens(w: string, p1: int)
    requires 0 <= p1
    ensures OtherRule(w, p1) <= w
  {
    OtherScreened();
    OtherShortensIn(DanishOther(), IgstRule(w), p1);
  }

  lemma PairShortens(w: string, p1: int)
    requires 0 <= p1
    ensures PairRule(w, p1) <= w
  {
    if p1 <= |w| && LongestSuffix(DanishPair(), w, p1) >= 0 {
      PairHop(w, p1);
    }
  }

  lemma MainShortens(w: string, p1: int)
    requires 0 <= p1
    ensures MainRule(w, p1) <= w
  {
    MainShortensIn(DanishMain(), w, p1);
  }

  lemma MainShortensIn(v: seq<Entry>, w: string, p1: int)
    requires 0 <= p1
    ensures MainRuleIn(v, w, p1) <= w
  {
  }

  lemma UndoubleShortens(w: string, p1: int)
    requires 0 <= p1
    ensures UndoubleRule(w, p1) <= w
  {
  }

  lemma PrefixTransitive(a: string, b: string, c: string)
    requires a <= b && b <= c
    ensures a <= c
  {
  }

  /** The stem of every word is a prefix of it. */
  lemma StemIsPrefix(w: string)
    ensures StemOf(w) <= w
  {
    var p1 := Region(w, VOWELS);
    var w1 := MainRule(w, p1);
    var w2 := PairRule(w1, p1);
    var w3 := OtherRule(w2, p1);
    MainShortens(w, p1);
    PairShortens(w1, p1);
    OtherShortens(w2, p1);
    UndoubleShortens(w3, p1);
    PrefixTransitive(w2, w1, w);
    PrefixTransitive(w3, w2, w);
    PrefixTransitive(UndoubleRule(w3, p1), w3, w);
  }

  // ---------- what the rules say ----------

  /** They are a, b, c, d, f, g, h, j, k, l, m, n, o, p, r, t, v, y, z and a with ring. */
  lemma SLetters(ch: int)
    ensures InGroup(S_ENDINGS, ch) <==>
      ch in {97, 98, 99, 100, 102, 103, 104, 106, 107, 108, 109, 110, 111, 112, 114, 116, 118, 121, 122, 229}
  {
    BitValues();
    if ch < 113 {
      FirstLetters(ch);
    } else if ch < 225 {
      OtherLetters(ch);
    } else {
      assert (ch - 97) / 8 == 16 ==> (ch - 97) % 8 == ch - 225;
    }
  }

  lemma FirstLetters(ch: int)
    requires ch < 113
    ensures InGroup(S_ENDINGS, ch) <==> ch in {97, 98, 99, 100, 102, 103, 104, 106, 107, 108, 109, 110, 111, 112}
  {
    BitValues();
  }

  lemma OtherLetters(ch: int)
    requires 113 <= ch < 225
    ensures InGroup(S_ENDINGS, ch) <==> ch in {114, 116, 118, 121, 122}
  {
    BitValues();
  }

  /** What becomes of a word that ends, from p1 on, with entry `i` and with no longer one. */
  lemma {:induction false} MainRuleIs(w: string, p1: int, i: int)
    requires 0 <= p1 <= |w| && 0 <= i < 32
    requires var s := DanishMain()[i].s; p1 <= |w| - |s| && w[|w| - |s|..] == s
    requires forall m | 0 <= m < 32 && |DanishMain()[i].s| < |DanishMain()[m].s| <= |w| - p1 ::
      w[|w| - |DanishMain()[m].s|..] != DanishMain()[m].s
    ensures var e := DanishMain()[i];
      var cut := |w| - |e.s|;
      && (e.result == 1 ==> MainRule(w, p1) == w[..cut])
      && (e.result == 2 ==>
           MainRule(w, p1) ==
           if cut > 0 && GetBUtf8(w, cut, 0).0 in
                {97, 98, 99, 100, 102, 103, 104, 106, 107, 108, 109, 110, 111, 112, 114, 116, 118, 121, 122, 229}
           then w[..cut] else w)
  {
    DanishMainInOrder();
    LongestIs(DanishMain(), w, p1, i);
    var cut := |w| - |DanishMain()[i].s|;
    if cut > 0 {
      SLetters(GetBUtf8(w, cut, 0).0);
    }
  }

  /** In characters: the ending "s" goes after one of these letters. */
  lemma {:induction false} MainRuleAtS(cs: seq<Point>, p1: int, w: string)
    requires w == Encode(cs) + "s" && 0 <= p1 < |w|
    requires forall m | 0 <= m < 32 && 1 < |DanishMain()[m].s| <= |w| - p1 ::
      w[|w| - |DanishMain()[m].s|..] != DanishMain()[m].s
    ensures MainRule(w, p1) ==
      if cs != [] && cs[|cs| - 1] in
           {97, 98, 99, 100, 102, 103, 104, 106, 107, 108, 109, 110, 111, 112, 114, 116, 118, 121, 122, 229}
      then Encode(cs) else w
  {
    assert DanishMain()[16].s == "s" && DanishMain()[16].result == 2;
    MainRuleIs(w, p1, 16);
    assert w[..|w| - 1] == Encode(cs);
    if cs != [] {
      BeforeS(cs, w);
    }
  }

  lemma {:induction false} BeforeS(cs: seq<Point>, w: string)
    requires w == Encode(cs) + "s" && cs != []
    ensures |w| - 1 > 0
    ensures
      GetBUtf8(w, |w| - 1, 0).0 in
        {97, 98, 99, 100, 102, 103, 104, 106, 107, 108, 109, 110, 111, 112, 114, 116, 118, 121, 122, 229} <==>
      cs[|cs| - 1] in {97, 98, 99, 100, 102, 103, 104, 106, 107, 108, 109, 110, 111, 112, 114, 116, 118, 121, 122, 229}
  {
    ReadsLast(cs, "s", 0);
  }

  lemma {:induction false} MainRuleIsNone(w: string, p1: int)
    requires 0 <= p1
    requires forall m | 0 <= m < 32 && |DanishMain()[m].s| <= |w| - p1 ::
      w[|w| - |DanishMain()[m].s|..] != DanishMain()[m].s
    ensures MainRule(w, p1) == w
  {
    if p1 <= |w| {
      LongestIsNone(DanishMain(), w, p1);
    }
  }

  lemma {:induction false} PairRuleIs(w: string, p1: int)
    requires 0 <= p1
    ensures PairRule(w, p1) ==
      if p1 + 2 <= |w| && w[|w| - 2..] in ["gd", "dt", "gt", "kt"] then w[..|w| - 1] else w
  {
    if p1 + 2 <= |w| && w[|w| - 2..] in ["gd", "dt", "gt", "kt"] {
      var i :| 0 <= i < 4 && w[|w| - 2..] == ["gd", "dt", "gt", "kt"][i];
      assert EndsIn(w, p1, DanishPair()[i].s);
      PairHop(w, p1);
    } else if p1 <= |w| {
      LongestIsNone(DanishPair(), w, p1);
    }
  }

  /** An ending of the table goes, and a pair that is left bare loses its last character; but "l, o with stroke, st"
      only loses its "t". */
  lemma {:induction false} TableRuleIs(v: string, p1: int, i: int)
    requires 0 <= p1 <= |v| && 0 <= i < 5
    requires var s := DanishOther()[i].s; p1 <= |v| - |s| && v[|v| - |s|..] == s
    requires forall m | 0 <= m < 5 && |DanishOther()[i].s| < |DanishOther()[m].s| <= |v| - p1 ::
      v[|v| - |DanishOther()[m].s|..] != DanishOther()[m].s
    ensures i == 4 ==> OtherRuleIn(DanishOther(), v, p1) == v[..|v| - 1]
    ensures i < 4 ==> OtherRuleIn(DanishOther(), v, p1) == PairRule(v[..|v| - |DanishOther()[i].s|], p1)
  {
    DanishOtherInOrder();
    LongestIs(DanishOther(), v, p1, i);
    if i == 4 {
      OtherAtLost(v);
    } else {
      OtherRow(i);
    }
  }

  /** "igst" loses its "st" first, wherever the region begins; the table comes second and the pairs third. */
  lemma {:induction false} OtherRuleIs(w: string, p1: int, v: string, i: int)
    requires v == if |w| >= 4 && w[|w| - 4..] == "igst" then w[..|w| - 2] else w
    requires 0 <= p1 <= |v| && 0 <= i < 5
    requires var s := DanishOther()[i].s; p1 <= |v| - |s| && v[|v| - |s|..] == s
    requires forall m | 0 <= m < 5 && |DanishOther()[i].s| < |DanishOther()[m].s| <= |v| - p1 ::
      v[|v| - |DanishOther()[m].s|..] != DanishOther()[m].s
    ensures i == 4 ==> OtherRule(w, p1) == v[..|v| - 1]
    ensures i < 4 ==>
      OtherRule(w, p1) == PairRule(v[..|v| - |DanishOther()[i].s|], p1)
  {
    TableRuleIs(v, p1, i);
  }

  lemma {:induction false} OtherAtLost(v: string)
    requires var s := DanishOther()[4].s; |s| <= |v| && v[|v| - |s|..] == s
    ensures DanishOther()[4].result == 2 && v[..|v| - |DanishOther()[4].s|] + LOS == v[..|v| - 1]
  {
    var s := DanishOther()[4].s;
    assert s == "l\U{c3}\U{b8}st" && LOS == s[..4];
    assert v[|v| - 5..][..4] == s[..4];
    assert v[..|v| - 5] + v[|v| - 5..][..4] == v[..|v| - 1];
  }

  lemma {:induction false} OtherRuleIsNone(w: string, p1: int, v: string)
    requires v == if |w| >= 4 && w[|w| - 4..] == "igst" then w[..|w| - 2] else w
    requires 0 <= p1
    requires forall m | 0 <= m < 5 && |DanishOther()[m].s| <= |v| - p1 ::
      v[|v| - |DanishOther()[m].s|..] != DanishOther()[m].s
    ensures OtherRule(w, p1) == v
  {
    if p1 <= |v| {
      LongestIsNone(DanishOther(), v, p1);
    }
  }

  /** In characters, with p1 in front of character `i`: a last character that is not a vowel goes if the one in front of
      it is the same, be that before p1 or not. */
  lemma {:induction false} UndoubleRuleIs(cs: seq<Point>, i: nat)
    requires i < |cs|
    ensures UndoubleRule(Encode(cs), |Encode(cs[..i])|) ==
      if |cs| > 1 && cs[|cs| - 1] == cs[|cs| - 2] && cs[|cs| - 1] !in {97, 101, 105, 111, 117, 121, 229, 230, 248}
      then Encode(cs[..|cs| - 1]) else Encode(cs)
  {
    var less, c := cs[..|cs| - 1], cs[|cs| - 1];
    Longer(cs, i, |cs| - 1);
    Parted(cs, |cs| - 1);
    assert cs[..|cs|] == cs && less + [c] == cs;
    UndoubleAt(less, c, |Encode(cs[..i])|);
  }

  lemma {:induction false} UndoubleAt(less: seq<Point>, c: Point, p1: int)
    requires 0 <= p1 <= |Encode(less)|
    ensures UndoubleRule(Encode(less) + One(c), p1) ==
      if less != [] && less[|less| - 1] == c && c !in {97, 101, 105, 111, 117, 121, 229, 230, 248}
      then Encode(less) else Encode(less) + One(c)
  {
    var w := Encode(less) + One(c);
    LastVowel(Encode(less), c, p1);
    ByLast(w, p1, |Encode(less)|);
    TwinIs(less, c, w);
  }

  lemma {:induction false} ByLast(w: string, p1: int, cut: nat)
    requires 0 <= p1 < |w| && GetBUtf8(w, |w|, p1).1 == |w| - cut && cut <= |w|
    ensures UndoubleRule(w, p1) ==
      if InGroup(VOWELS, GetBUtf8(w, |w|, p1).0) then w else TwinDropped(w, cut)
  {
  }

  lemma {:induction false} LastVowel(a: string, c: Point, p1: int)
    requires 0 <= p1 <= |a|
    ensures var w := a + One(c);
      var (ch, width) := GetBUtf8(w, |w|, p1);
      width == |One(c)| && (InGroup(VOWELS, ch) <==> c in {97, 101, 105, 111, 117, 121, 229, 230, 248})
  {
    var w := a + One(c);
    assert w + "" == w;
    ReadsBackward(a, c, "", p1);
    Far(c);
    VowelLetters(GetBUtf8(w, |w|, p1).0);
  }

  lemma {:induction false} TwinIs(less: seq<Point>, c: Point, w: string)
    requires w == Encode(less) + One(c)
    ensures TwinDropped(w, |Encode(less)|) == if less != [] && less[|less| - 1] == c then Encode(less) else w
  {
    var cut, width := |Encode(less)|, |One(c)|;
    EndsWithOne(less, c);
    assert w[..cut] == Encode(less) && w[cut..] == One(c);
    assert width <= cut ==> w[cut - width..cut] == Encode(less)[cut - width..];
  }

  /** The houses become house. */
  lemma {:induction false} StemOfHusene()
    ensures StemOf("husene") == "hus"
  {
    var w := "husene";
    PlainRegion(w, 1, 2);
    assert DanishMain()[7].s == "ene" && DanishMain()[7].result == 1;
    assert w[3..] == "ene" && w[..3] == "hus";
    MainRuleIs(w, 3, 7);
    PairRuleIs("hus", 3);
    forall m | 0 <= m < 5
      ensures |DanishOther()[m].s| > 1
    {
      OtherRow(m);
    }
    OtherRuleIsNone("hus", 3, "hus");
  }

  // ---------- the code ----------

  /** r_main_suffix, for any table whose entries are of the two kinds. */
  method MainSuffixIn(z: SnEnv, v: seq<Entry>) returns (ret: int)
    requires AtEnd(z) && 0 <= z.p1
    requires TableOk(Backward(v), v) && Screened(v, MainPass, 0) && forall i | 0 <= i < |v| :: MainEntry(v[i])
    modifies z`p, z`c, z`l, z`lb, z`bra, z`ket
    ensures z.p == MainRuleIn(v, old(z.p), z.p1) && z.lb == 0 && z.l == |z.p| && 0 <= z.c <= z.l && ret >= 0
  {
    var found := FindSuffix(z, v, MainPass, 0);
    if found == 0 {
      return 0;
    }
    assert MainEntry(v[LongestSuffix(v, z.p, z.p1)]);
    ret := DropMain(z, found);
  }

  method MainSuffix(z: SnEnv) returns (ret: int)
    requires AtEnd(z) && 0 <= z.p1
    modifies z`p, z`c, z`l, z`lb, z`bra, z`ket
    ensures z.p == MainRule(old(z.p), z.p1) && z.lb == 0 && z.l == |z.p| && 0 <= z.c <= z.l && ret >= 0
  {
    DanishMainInOrder();
    MainScreened();
    ret := MainSuffixIn(z, DanishMain());
  }

  /** The switch of r_main_suffix. */
  method DropMain(z: SnEnv, found: int) returns (ret: int)
    requires z.lb == 0 && 0 <= z.bra == z.c <= z.ket == z.l == |z.p| && 1 <= found <= 2
    modifies z`p, z`c, z`l
    ensures z.p == if found == 1 || (0 < z.bra && InGroup(S_ENDINGS, GetBUtf8(old(z.p), z.bra, 0).0))
      then old(z.p)[..z.bra] else old(z.p)
    ensures z.l == |z.p| && 0 <= z.c <= z.l && ret >= 0
  {
    if found == 2 {
      var r := z.GroupingBU(true, S_ENDINGS, false);
      if r != 0 {
        return 0;
      }
    }
    ret := z.SliceDel();
    if ret < 0 {
      return;
    }
    return 1;
  }

  /** r_consonant_pair. */
  method ConsonantPair(z: SnEnv) returns (ret: int)
    requires AtEnd(z) && 0 <= z.p1
    modifies z`p, z`c, z`l, z`lb, z`bra, z`ket
    ensures z.p == PairRule(old(z.p), z.p1) && z.lb == 0 && z.l == |z.p| && 0 <= z.c <= z.l && ret >= 0
  {
    DanishPairInOrder();
    PairScreened();
    PairHops(z.p, z.p1);
    ret := DropPair(z, DanishPair(), PairPass);
  }

  lemma PairHops(w: string, p1: int)
    requires 0 <= p1
    ensures p1 <= |w| && LongestSuffix(DanishPair(), w, p1) >= 0 ==> HopBack(w, |w|, 0, 1) >= 0
  {
    if p1 <= |w| && LongestSuffix(DanishPair(), w, p1) >= 0 {
      PairHop(w, p1);
    }
  }

  /** The two comparisons of r_other_suffix together. */
  lemma EndsInIgst(w: string)
    ensures Igst(w) <==> |w| >= 2 && w[|w| - 2..|w|] == "st" && |w| - 2 >= 2 && w[|w| - 4..|w| - 2] == "ig"
  {
    if |w| >= 4 {
      SplitAt(w[|w| - 4..], "ig", "st");
      assert w[|w| - 4..][..2] == w[|w| - 4..|w| - 2] && w[|w| - 4..][2..] == w[|w| - 2..|w|];
      assert "ig" + "st" == "igst";
    }
  }

  lemma SplitAt(w: string, a: string, b: string)
    requires |w| == |a| + |b|
    ensures w == a + b <==> w[..|a|] == a && w[|a|..] == b
  {
    assert w == w[..|a|] + w[|a|..];
    assert (a + b)[..|a|] == a && (a + b)[|a|..] == b;
  }

  /** The search for "st" behind "ig", with the slice from the "st" on if there is one. */
  method SeesIgst(z: SnEnv) returns (ig: bool)
    requires AtEnd(z)
    modifies z`c, z`bra, z`ket
    ensures ig <==> Igst(z.p)
    ensures z.Valid() && z.ket == |z.p| && (ig ==> z.bra == |z.p| - 2)
  {
    EndsInIgst(z.p);
    z.ket := z.c;
    ig := z.EqSB("st");
    if ig {
      z.bra := z.c;
      ig := z.EqSB("ig");
    }
  }

  /** The first part of r_other_suffix. */
  method DropIgst(z: SnEnv) returns (ret: int)
    requires AtEnd(z)
    modifies z`p, z`c, z`l, z`bra, z`ket
    ensures z.p == IgstRule(old(z.p)) && AtEnd(z) && ret == 0
  {
    var m1 := z.l - z.c;
    ret := 0;
    var ig := SeesIgst(z);
    if ig {
      assert z.p[z.ket..] == [];
      ret := z.SliceDel();
      if ret < 0 {
        return;
      }
    }
    z.c := z.l - m1;
  }

  /** The second part of r_other_suffix, for any table whose entries are of the two kinds. */
  method OtherSuffixIn(z: SnEnv, v: seq<Entry>) returns (ret: int)
    requires AtEnd(z) && 0 <= z.p1
    requires TableOk(Backward(v), v) && Screened(v, OtherPass, 1) && forall i | 0 <= i < |v| :: OtherEntry(v[i])
    modifies z`p, z`c, z`l, z`lb, z`bra, z`ket
    ensures z.p == OtherRuleIn(v, old(z.p), z.p1) && z.lb == 0 && z.l == |z.p| && 0 <= z.c <= z.l && ret >= 0
  {
    var found := FindSuffix(z, v, OtherPass, 1);
    if found == 0 {
      return 0;
    }
    assert OtherEntry(v[LongestSuffix(v, z.p, z.p1)]);
    ret := DropOther(z, found);
  }

  /** r_other_suffix. */
  method OtherSuffix(z: SnEnv) returns (ret: int)
    requires AtEnd(z) && 0 <= z.p1
    modifies z`p, z`c, z`l, z`lb, z`bra, z`ket
    ensures z.p == OtherRule(old(z.p), z.p1) && z.lb == 0 && z.l == |z.p| && 0 <= z.c <= z.l && ret >= 0
  {
    ret := DropIgst(z);
    if ret < 0 {
      return;
    }
    DanishOtherInOrder();
    OtherScreened();
    ret := OtherSuffixIn(z, DanishOther());
  }

  /** The switch of r_other_suffix. */
  method DropOther(z: SnEnv, found: int) returns (ret: int)
    requires z.lb == 0 && 0 <= z.bra == z.c <= z.ket == z.l == |z.p| && 1 <= found <= 2 && 0 <= z.p1
    modifies z`p, z`c, z`l, z`lb, z`bra, z`ket
    ensures z.p == if found == 1 then PairRule(old(z.p[..z.bra]), z.p1) else old(z.p[..z.bra]) + LOS
    ensures z.lb == 0 && z.l == |z.p| && 0 <= z.c <= z.l && ret >= 0
  {
    if found == 1 {
      ret := z.SliceDel();
      if ret < 0 {
        return;
      }
      assert z.p == old(z.p[..z.bra]);
      var m3 := z.l - z.c;
      ret := ConsonantPair(z);
      if ret < 0 {
        return;
      }
      z.c := z.l - m3;
    } else {
      ret := z.SliceFromS(LOS);
      if ret < 0 {
        return;
      }
    }
    return 1;
  }

  /** r_undouble. */
  method Undouble(z: SnEnv) returns (ret: int)
    requires AtEnd(z) && 0 <= z.p1
    modifies z`p, z`c, z`l, z`lb, z`bra, z`ket, z`ch
    ensures z.p == UndoubleRule(old(z.p), z.p1) && z.lb == 0 && z.l == |z.p| && 0 <= z.c <= z.l && ret >= 0
  {
    var m1 := z.l - z.c;
    if z.c < z.p1 {
      return 0;
    }
    z.c := z.p1;
    var mlimit := z.lb;
    z.lb := z.c;
    z.c := z.l - m1;
    z.ket := z.c;
    var r := z.GroupingBU(false, VOWELS, false);
    if r != 0 {
      z.lb := mlimit;
      return 0;
    }
    assert var (ch, width) := GetBUtf8(z.p, |z.p|, z.p1); z.c == |z.p| - width && !InGroup(VOWELS, ch);
    ret := CutTwin(z, mlimit);
  }

  /** The slice from the cursor on is saved and compared with what stands in front of it. */
  method CutTwin(z: SnEnv, mlimit: int) returns (ret: int)
    requires mlimit == 0 <= z.c <= z.ket == z.l == |z.p|
    modifies z`p, z`c, z`l, z`lb, z`bra, z`ch
    ensures z.p == TwinDropped(old(z.p), old(z.c)) && z.lb == 0 && z.l == |z.p| && 0 <= z.c <= z.l && ret >= 0
  {
    z.bra := z.c;
    assert z.p[z.bra..z.ket] == z.p[z.bra..];
    var slice := z.SliceTo();
    if slice.None? {
      return -1;
    }
    z.ch := slice.value;
    z.lb := mlimit;
    ret := DropTwin(z);
  }

  /** The end of r_undouble: the slice goes if its text stands in front of it once more. */
  method DropTwin(z: SnEnv) returns (ret: int)
    requires z.lb == 0 <= z.bra == z.c <= z.ket == z.l == |z.p| && z.ch == z.p[z.bra..]
    modifies z`p, z`c, z`l
    ensures z.p == TwinDropped(old(z.p), z.bra) && z.l == |z.p| && 0 <= z.c <= z.l && ret >= 0
  {
    var twice := z.EqSB(z.ch);
    if !twice {
      return 0;
    }
    ret := z.SliceDel();
    if ret < 0 {
      return;
    }
    return 1;
  }

  /** danish_UTF_8_stem: the word in `z` becomes its stem. */
  method Stem(z: SnEnv) returns (ret: int)
    requires z.c == z.lb == 0 && z.l == |z.p|
    modifies z
    ensures ret == 1 && z.p == StemOf(old(z.p)) && z.c == z.lb == 0 && z.l == |z.p|
    ensures var p1 := Region(old(z.p), VOWELS);
      z.p == UndoubleRule(OtherRule(PairRule(MainRule(old(z.p), p1), p1), p1), p1)
  {
    var c1 := z.c;
    ret := MarkRegions(z, VOWELS);
    z.c := c1;
    z.lb := z.c;
    z.c := z.l;

    var m := z.l - z.c;
    ret := MainSuffix(z);
    if ret < 0 {
      return;
    }
    z.c := z.l - m;
    ret := ConsonantPair(z);
    if ret < 0 {
      return;
    }
    z.c := z.l - m;
    ret := OtherSuffix(z);
    if ret < 0 {
      return;
    }
    z.c := z.l - m;
    ret := Undouble(z);
    if ret < 0 {
      return;
    }
    z.c := z.l - m;
    z.c := z.lb;
    return 1;
  }
}
