/** Characters and their bytes: what the byte tests of the Snowball runtime make of well-formed text. */
module Utf8 {
  import opened Among
  import opened Snowball

  /** A character of at most three bytes. */
  type Point = c: int | 0 <= c < 0x10000

  /** The bytes of a character. */
  function One(c: Point): (s: string)
    ensures |s| == if c < 0x80 then 1 else if c < 0x800 then 2 else 3
  {
    if c < 0x80 then [c as char]
    else if c < 0x800 then [(0xC0 + c / 0x40) as char, (0x80 + c % 0x40) as char]
    else [(0xE0 + c / 0x1000) as char, (0x80 + c / 0x40 % 0x40) as char, (0x80 + c % 0x40) as char]
  }

  function Encode(cs: seq<Point>): string {
    if cs == [] then "" else One(cs[0]) + Encode(cs[1..])
  }

  lemma {:induction false} EncodeConcat(a: seq<Point>, b: seq<Point>)
    ensures Encode(a + b) == Encode(a) + Encode(b)
  {
    if a == [] {
      assert a + b == b;
    } else {
      assert (a + b)[0] == a[0] && (a + b)[1..] == a[1..] + b;
      EncodeConcat(a[1..], b);
    }
  }

  /** The text with character `i` set apart. */
  lemma {:induction false} Parted(cs: seq<Point>, i: nat)
    requires i < |cs|
    ensures Encode(cs) == Encode(cs[..i]) + One(cs[i]) + Encode(cs[i + 1..])
    ensures Encode(cs[..i + 1]) == Encode(cs[..i]) + One(cs[i])
  {
    OneAlone(cs[i]);
    EncodeConcat(cs[..i], [cs[i]]);
    EncodeConcat(cs[..i + 1], cs[i + 1..]);
    assert cs[..i + 1] == cs[..i] + [cs[i]];
    assert cs == cs[..i + 1] + cs[i + 1..];
  }

  lemma {:induction false} OneAlone(c: Point)
    ensures Encode([c]) == One(c)
  {
    assert [c][1..] == [];
    assert One(c) + "" == One(c);
  }

  // ---------- reading ----------

  /** get_utf8 reads a character and its width. */
  lemma {:induction false} ReadsForward(a: string, c: Point, b: string, l: int)
    requires |a| + |One(c)| <= l <= |a + One(c) + b|
    ensures GetUtf8(a + One(c) + b, |a|, l) == (c, |One(c)|)
  {
    var p, s := a + One(c) + b, One(c);
    assert p[|a|] == s[0];
    if c >= 0x80 {
      assert p[|a| + 1] == s[1];
      Lead(c);
    }
    if c >= 0x800 {
      assert p[|a| + 2] == s[2];
      Digits(c);
    }
  }

  lemma Lead(c: Point)
    ensures c < 0x800 ==> (0xC0 + c / 0x40) % 0x20 == c / 0x40
    ensures (0xE0 + c / 0x1000) % 0x10 == c / 0x1000
    ensures (0x80 + c / 0x40 % 0x40) % 0x40 == c / 0x40 % 0x40
    ensures (0x80 + c % 0x40) % 0x40 == c % 0x40
    ensures c == c / 0x40 * 0x40 + c % 0x40
  {
  }

  /** A number below 0x10000 in its four, six and six bits. */
  lemma Digits(c: Point)
    ensures c == c / 0x1000 * 0x1000 + c / 0x40 % 0x40 * 0x40 + c % 0x40 && c / 0x1000 < 0x10
  {
    assert c / 0x40 / 0x40 == c / 0x1000;
  }

  /**
    get_b_utf8 reads a character of one or two bytes backwards, and the width of any; of three bytes
    it takes the second one for the first.
  */
  lemma {:induction false} ReadsBackward(a: string, c: Point, b: string, lb: int)
    requires 0 <= lb <= |a|
    ensures GetBUtf8(a + One(c) + b, |a| + |One(c)|, lb).1 == |One(c)|
    ensures GetBUtf8(a + One(c) + b, |a| + |One(c)|, lb).0 ==
      if c < 0x800 then c else c / 0x40 % 0x10 * 0x1000 + c % 0x1000
  {
    var p, s := a + One(c) + b, One(c);
    assert forall k | 0 <= k < |s| :: p[|a| + k] == s[k];
    if c >= 0x800 {
      LowDigits(c);
    }
  }

  lemma LowDigits(c: Point)
    ensures c % 0x1000 == c / 0x40 % 0x40 * 0x40 + c % 0x40
    ensures (0x80 + c / 0x40 % 0x40) % 0x10 == c / 0x40 % 0x10
    ensures (0x80 + c / 0x40 % 0x40) % 0x40 == c / 0x40 % 0x40
    ensures (0x80 + c % 0x40) % 0x40 == c % 0x40
  {
  }

  /** Reading backwards takes no character of three bytes for a letter of the first two hundred and more. */
  lemma {:induction false} ReadsLast(cs: seq<Point>, b: string, lb: int)
    requires cs != [] && 0 <= lb <= |Encode(cs[..|cs| - 1])|
    ensures |Encode(cs)| == |Encode(cs[..|cs| - 1])| + |One(cs[|cs| - 1])|
    ensures Encode(cs) == Encode(cs[..|cs| - 1]) + One(cs[|cs| - 1])
    ensures var (ch, width) := GetBUtf8(Encode(cs) + b, |Encode(cs)|, lb);
      width == |One(cs[|cs| - 1])| && (ch == cs[|cs| - 1] || (cs[|cs| - 1] >= 0x800 && (ch < 0x40 || ch >= 0x400)))
  {
    var n, c := |cs| - 1, cs[|cs| - 1];
    Parted(cs, n);
    assert cs[..n + 1] == cs;
    ReadsBackward(Encode(cs[..n]), c, b, lb);
    if c >= 0x800 {
      Far(c);
    }
  }

  lemma Far(c: Point)
    ensures var ch := c / 0x40 % 0x10 * 0x1000 + c % 0x1000; ch < 0x40 || ch >= 0x400
  {
    LowDigits(c);
    var q := c / 0x40;
    assert q % 0x10 == 0 ==> q % 0x40 == q / 0x10 % 4 * 0x10;
  }

  /** The last byte of a character of more than one is not one itself. */
  lemma {:induction false} LastByte(cs: seq<Point>, ch: char)
    requires cs != [] && ch as int < 0x80
    ensures Encode(cs) != "" && (Encode(cs)[|Encode(cs)| - 1] == ch <==> cs[|cs| - 1] == ch as int)
  {
    var n, s := |cs| - 1, One(cs[|cs| - 1]);
    Parted(cs, n);
    assert cs[..n + 1] == cs;
    assert Encode(cs)[|Encode(cs)| - 1] == s[|s| - 1];
  }

  lemma {:induction false} OneIsOnly(c: Point, d: Point)
    requires One(c) == One(d)
    ensures c == d
  {
    assert "" + One(c) + "" == One(c) && "" + One(d) + "" == One(d);
    ReadsForward("", c, "", |One(c)|);
    ReadsForward("", d, "", |One(d)|);
  }

  lemma {:induction false} NoLonger(w: string, s: string, t: string)
    requires 0 < |s| <= |w| && 0 < |t| <= |w| && w[|w| - |s|..] == s && w[|w| - |t|..] == t
    requires !Continues(s[0]) && forall k | 0 < k < |t| :: Continues(t[k])
    ensures |t| <= |s|
  {
    var k := |t| - |s|;
    var b := if 0 <= k then t[k] else s[0];
    assert 0 <= k ==> w[|w| - |t|..][k] == b;
    assert w[|w| - |s|..][0] == s[0];
  }

  /** A text ends with the bytes of a character exactly if that is its last one. */
  lemma {:induction false} EndsWithOne(cs: seq<Point>, c: Point)
    ensures var w, s := Encode(cs), One(c);
      |s| <= |w| && w[|w| - |s|..] == s <==> cs != [] && cs[|cs| - 1] == c
  {
    if cs != [] {
      var w, s, n := Encode(cs), One(c), |cs| - 1;
      var t := One(cs[n]);
      Parted(cs, n);
      assert cs[..n + 1] == cs;
      assert w[|w| - |t|..] == t;
      BytesOfOne(c);
      BytesOfOne(cs[n]);
      if |s| <= |w| && w[|w| - |s|..] == s {
        NoLonger(w, s, t);
        NoLonger(w, t, s);
        OneIsOnly(c, cs[n]);
      }
      assert |s| == |t| ==> w[|w| - |s|..] == t;
    }
  }

  // ---------- hopping ----------

  /** A character does not begin with a continuation byte, and goes on with nothing else. */
  lemma BytesOfOne(c: Point)
    ensures !Continues(One(c)[0]) && forall k | 0 < k < |One(c)| :: Continues(One(c)[k])
    ensures One(c)[0] as int >= 0xC0 <==> c >= 0x80
  {
  }

  lemma {:induction false} Skips(p: string, c: int, r: int)
    requires 0 <= c <= r <= |p| && forall k | c <= k < r :: Continues(p[k])
    requires r < |p| ==> !Continues(p[r])
    ensures SkipContinuation(p, c, |p|) == r
    decreases r - c
  {
    if c < r {
      Skips(p, c + 1, r);
    }
  }

  lemma {:induction false} HopsOne(a: string, c: Point, rest: seq<Point>, n: nat)
    ensures var p := a + One(c) + Encode(rest);
      Hop(p, |a|, |p|, n + 1) == Hop(p, |a| + |One(c)|, |p|, n)
  {
    var p, s := a + One(c) + Encode(rest), One(c);
    assert forall k | 0 <= k < |s| :: p[|a| + k] == s[k];
    BytesOfOne(c);
    if rest != [] {
      BytesOfOne(rest[0]);
      assert p[|a| + |s|] == Encode(rest)[0] == One(rest[0])[0];
    }
    if c >= 0x80 {
      forall k | |a| + 1 <= k < |a| + |s|
        ensures Continues(p[k])
      {
        assert p[k] == s[k - |a|];
      }
      Skips(p, |a| + 1, |a| + |s|);
    }
  }

  /** A hop over n characters comes behind n characters, if there are as many. */
  lemma {:induction false} Hops(a: string, cs: seq<Point>, n: nat)
    ensures Hop(a + Encode(cs), |a|, |a + Encode(cs)|, n) == if n <= |cs| then |a| + |Encode(cs[..n])| else -1
    decreases |cs|
  {
    if n == 0 {
      assert cs[..0] == [];
    } else if cs == [] {
      assert a + Encode(cs) == a;
    } else {
      var s := One(cs[0]);
      HopsOne(a, cs[0], cs[1..], n - 1);
      Hops(a + s, cs[1..], n - 1);
      assert a + Encode(cs) == a + s + Encode(cs[1..]);
      if n <= |cs| {
        assert cs[..n][0] == cs[0] && cs[..n][1..] == cs[1..][..n - 1];
      }
    }
  }

  /** A hop back comes to where the character begins. */
  lemma {:induction false} HopsBack(a: string, c: Point, b: string, lb: int)
    requires 0 <= lb <= |a|
    ensures HopBack(a + One(c) + b, |a| + |One(c)|, lb, 1) == |a|
  {
    var p, s := a + One(c) + b, One(c);
    assert forall k | 0 <= k < |s| :: p[|a| + k] == s[k];
    BytesOfOne(c);
    if c >= 0x80 {
      assert SkipBack(p, |a|, lb) == |a|;
      assert p[|a| + |s| - 1] == s[|s| - 1] && Continues(s[|s| - 1]);
      assert SkipBack(p, |a| + 1, lb) == |a|;
      assert |s| == 3 ==> Continues(s[1]) && Continues(s[2]);
    }
    assert HopBack(p, |a|, lb, 0) == |a|;
  }

  // ---------- runs ----------

  /** The run of characters from the i-th on ends at the first one that is otherwise. */
  lemma {:induction false} Runs(cs: seq<Point>, i: nat, j: nat, g: Group, want: bool)
    requires i <= j <= |cs| && forall k | i <= k < j :: InGroup(g, cs[k]) == want
    requires j < |cs| ==> InGroup(g, cs[j]) != want
    ensures |Encode(cs[..i])| <= |Encode(cs)|
    ensures RunEnd(Encode(cs), |Encode(cs[..i])|, |Encode(cs)|, g, want) == |Encode(cs[..j])|
    decreases j - i
  {
    assert cs == cs[..i] + cs[i..];
    EncodeConcat(cs[..i], cs[i..]);
    if i < |cs| {
      Parted(cs, i);
      ReadsForward(Encode(cs[..i]), cs[i], Encode(cs[i + 1..]), |Encode(cs)|);
      if i < j {
        Runs(cs, i + 1, j, g, want);
      }
    } else {
      assert cs[..i] == cs;
    }
  }

  /** A run read backwards goes on in front of a character that belongs to it, and ends behind any other. */
  lemma {:induction false} StepBack(a: string, c: Point, b: string, g: Group, want: bool)
    requires c < 0x800
    ensures RunStart(a + One(c) + b, |a| + |One(c)|, 0, g, want) ==
      if InGroup(g, c) == want then RunStart(a + One(c) + b, |a|, 0, g, want) else |a| + |One(c)|
  {
    ReadsBackward(a, c, b, 0);
  }

  /** The characters of a text of single bytes. */
  function Points(w: string): (cs: seq<Point>)
    requires forall k | 0 <= k < |w| :: w[k] as int < 0x80
    ensures |cs| == |w| && forall k | 0 <= k < |w| :: cs[k] == w[k] as int
  {
    seq(|w|, k requires 0 <= k < |w| => w[k] as int)
  }

  lemma {:induction false} EncodesPoints(w: string)
    requires forall k | 0 <= k < |w| :: w[k] as int < 0x80
    ensures Encode(Points(w)) == w
  {
    if w != "" {
      EncodesPoints(w[1..]);
      assert Points(w)[1..] == Points(w[1..]);
    }
  }
}
