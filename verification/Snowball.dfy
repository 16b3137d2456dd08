/** The Snowball runtime, runtime/utilities.c: a word under edit, its cursor and its limits. */
module Snowball {
  import opened Basics
  import opened Among

  ghost function Reversed(s: string): (r: string)
    ensures |r| == |s| && forall k | 0 <= k < |s| :: r[k] == s[|s| - 1 - k]
  {
    seq(|s|, k requires 0 <= k < |s| => s[|s| - 1 - k])
  }

  /** The keys of a table in reading order. */
  ghost function Forward(v: seq<Entry>): (keys: seq<string>)
    ensures |keys| == |v| && forall i {:trigger keys[i]} | 0 <= i < |v| :: keys[i] == v[i].s
  {
    seq(|v|, i requires 0 <= i < |v| => v[i].s)
  }

  ghost function Backward(v: seq<Entry>): (keys: seq<string>)
    ensures |keys| == |v| && forall i {:trigger keys[i]} | 0 <= i < |v| :: keys[i] == Reversed(v[i].s)
  {
    seq(|v|, i requires 0 <= i < |v| => Reversed(v[i].s))
  }

  predicate GuardAccepts(e: Entry, z: Cursor) {
    match e.guard
    case None => true
    case Some(f) => f(z)
  }

  /** Which entries would be accepted if they matched, reading forwards from `c`. */
  ghost function AcceptsForward(v: seq<Entry>, z: Cursor): (ok: seq<bool>)
    ensures |ok| == |v| && forall i | 0 <= i < |v| :: ok[i] == GuardAccepts(v[i], z.(c := z.c + |v[i].s|))
  {
    seq(|v|, i requires 0 <= i < |v| => GuardAccepts(v[i], z.(c := z.c + |v[i].s|)))
  }

  ghost function AcceptsBackward(v: seq<Entry>, z: Cursor): (ok: seq<bool>)
    ensures |ok| == |v| && forall i | 0 <= i < |v| :: ok[i] == GuardAccepts(v[i], z.(c := z.c - |v[i].s|))
  {
    seq(|v|, i requires 0 <= i < |v| => GuardAccepts(v[i], z.(c := z.c - |v[i].s|)))
  }

  /** The inner loop of find_among: compares the text from `c` with `w`, whose first `common0` symbols are
      known to agree. */
  method CompareForward(p: string, c: int, l: int, w: string, common0: int) returns (diff: int, common: int)
    requires 0 <= c <= l <= |p| && Agree(p[c..l], w, common0)
    ensures IsCommon(p[c..l], w, common)
    ensures diff < 0 <==> Before(p[c..l], w)
  {
    ghost var q := p[c..l];
    diff, common := 0, common0;
    var i2 := common;
    while i2 < |w|
      invariant i2 == common && Agree(q, w, common) && diff == 0
    {
      if c + common == l {
        diff := -1;
        break;
      }
      diff := p[c + common] as int - w[i2] as int;
      if diff != 0 {
        break;
      }
      common := common + 1;
      i2 := i2 + 1;
    }
    if diff == 0 {
      PrefixNotAfter(w, q);
    }
  }

  /** The inner loop of find_among_b. */
  method CompareBackward(p: string, c: int, lb: int, w: string, common0: int) returns (diff: int, common: int)
    requires 0 <= lb <= c <= |p| && Agree(Reversed(p[lb..c]), Reversed(w), common0)
    ensures IsCommon(Reversed(p[lb..c]), Reversed(w), common)
    ensures diff < 0 <==> Before(Reversed(p[lb..c]), Reversed(w))
  {
    ghost var q, k := Reversed(p[lb..c]), Reversed(w);
    diff, common := 0, common0;
    var i2 := |w| - 1 - common;
    while i2 >= 0
      invariant i2 == |w| - 1 - common && Agree(q, k, common) && diff == 0
    {
      if c - common == lb {
        diff := -1;
        break;
      }
      diff := p[c - 1 - common] as int - w[i2] as int;
      if diff != 0 {
        break;
      }
      common := common + 1;
      i2 := i2 - 1;
    }
    if diff == 0 {
      PrefixNotAfter(k, q);
    }
  }

  /** The first loop of find_among. */
  method BisectForward(p: string, c: int, l: int, v: seq<Entry>) returns (i: int, commonI: int)
    requires 0 <= c <= l <= |p| && TableOk(Forward(v), v)
    ensures Landed(Forward(v), p[c..l], i, commonI)
  {
    ghost var q, keys := p[c..l], Forward(v);
    i, commonI := 0, 0;
    var j, commonJ, firstKeyInspected := |v|, 0, false;
    ghost var seen := false;
    while true
      invariant Bisecting(keys, q, i, j, commonI, commonJ, seen) && i < j
      invariant firstKeyInspected ==> i == 0 && j == 1
      invariant j - i <= 1 && |v| > 1 ==> firstKeyInspected
      invariant i > 0 ==> seen
      decreases j - i, !firstKeyInspected
    {
      var k := i + (j - i) / 2;
      var common := if commonI < commonJ then commonI else commonJ;
      CommonIsKnown(keys, q, i, j, commonI, commonJ, seen, k);
      var diff;
      diff, common := CompareForward(p, c, l, v[k].s, common);
      if diff < 0 {
        j, commonJ := k, common;
      } else {
        i, commonI, seen := k, common, true;
      }
      if j - i <= 1 {
        if i > 0 { break; }
        if j == i { break; }
        if firstKeyInspected { break; }
        firstKeyInspected := true;
      }
    }
    if j < |keys| {
      RestIsAfter(keys, q, j);
    }
  }

  /** The first loop of find_among_b. */
  method BisectBackward(p: string, c: int, lb: int, v: seq<Entry>) returns (i: int, commonI: int)
    requires 0 <= lb <= c <= |p| && TableOk(Backward(v), v)
    ensures Landed(Backward(v), Reversed(p[lb..c]), i, commonI)
  {
    ghost var q, keys := Reversed(p[lb..c]), Backward(v);
    i, commonI := 0, 0;
    var j, commonJ, firstKeyInspected := |v|, 0, false;
    ghost var seen := false;
    while true
      invariant Bisecting(keys, q, i, j, commonI, commonJ, seen) && i < j
      invariant firstKeyInspected ==> i == 0 && j == 1
      invariant j - i <= 1 && |v| > 1 ==> firstKeyInspected
      invariant i > 0 ==> seen
      decreases j - i, !firstKeyInspected
    {
      var k := i + (j - i) / 2;
      var common := if commonI < commonJ then commonI else commonJ;
      CommonIsKnown(keys, q, i, j, commonI, commonJ, seen, k);
      var diff;
      diff, common := CompareBackward(p, c, lb, v[k].s, common);
      if diff < 0 {
        j, commonJ := k, common;
      } else {
        i, commonI, seen := k, common, true;
      }
      if j - i <= 1 {
        if i > 0 { break; }
        if j == i { break; }
        if firstKeyInspected { break; }
        firstKeyInspected := true;
      }
    }
    if j < |keys| {
      RestIsAfter(keys, q, j);
    }
  }

  /** Every link leads to a shorter entry. */
  ghost predicate LinksFall(v: seq<Entry>) {
    forall x | 0 <= x < |v| && v[x].substring >= 0 :: v[x].substring < |v| && |v[v[x].substring].s| < |v[x].s|
  }

  lemma LinksShrinkAll(keys: seq<string>, v: seq<Entry>)
    requires TableOk(keys, v)
    ensures LinksFall(v)
  {
    forall x | 0 <= x < |v| && v[x].substring >= 0
      ensures v[x].substring < |v| && |v[v[x].substring].s| < |v[x].s|
    {
      LinksShrink(keys, v, x);
    }
  }

  /** Where a cursor ends up when the text from `bra` to `ket` changes its length by `d`. */
  function Moved(c: int, bra: int, ket: int, d: int): int {
    if d == 0 then c
    else if c >= ket then c + d
    else if c > bra then bra
    else c
  }

  // ---------- UTF-8 ----------

  predicate Continues(b: char) {
    0x80 <= b as int < 0xC0
  }

  /** The first position from `c` on that does not hold a continuation byte. */
  function SkipContinuation(p: string, c: int, l: int): (r: int)
    requires 0 <= c <= l <= |p|
    ensures c <= r <= l
    decreases l - c
  {
    if c < l && Continues(p[c]) then SkipContinuation(p, c + 1, l) else c
  }

  /** The position `n` characters after `c`; -1 if there are fewer. */
  function Hop(p: string, c: int, l: int, n: nat): (r: int)
    requires 0 <= c <= l <= |p|
    ensures r == -1 || c + n <= r <= l
    decreases n
  {
    if n == 0 then c
    else if c >= l then -1
    else Hop(p, if p[c] as int >= 0xC0 then SkipContinuation(p, c + 1, l) else c + 1, l, n - 1)
  }

  /** The lead byte at or before `c`, or the limit. */
  function SkipBack(p: string, c: int, lb: int): (r: int)
    requires 0 <= lb <= c < |p|
    ensures lb <= r <= c
    decreases c
  {
    if c > lb && p[c] as int < 0xC0 then SkipBack(p, c - 1, lb) else c
  }

  /** The position `n` characters before `c`; -1 if there are fewer. */
  function HopBack(p: string, c: int, lb: int, n: nat): (r: int)
    requires 0 <= lb <= c <= |p|
    ensures r == -1 || lb <= r <= c - n
    decreases n
  {
    if n == 0 then c
    else if c <= lb then -1
    else HopBack(p, if p[c - 1] as int >= 0x80 then SkipBack(p, c - 1, lb) else c - 1, lb, n - 1)
  }

  /** skip_utf8. */
  method SkipUtf8(p: string, c0: int, lb: int, l: int, n0: int) returns (r: int)
    requires n0 >= 0 ==> 0 <= c0 <= l <= |p|
    requires n0 < 0 ==> 0 <= lb <= c0 <= |p|
    ensures n0 >= 0 ==> r == Hop(p, c0, l, n0)
    ensures n0 < 0 ==> r == HopBack(p, c0, lb, -n0)
  {
    var c, n := c0, n0;
    if n >= 0 {
      while n > 0
        invariant 0 <= n && 0 <= c <= l && Hop(p, c, l, n) == Hop(p, c0, l, n0)
      {
        if c >= l {
          return -1;
        }
        var b := p[c];
        c := c + 1;
        if b as int >= 0xC0 {
          ghost var target := SkipContinuation(p, c, l);
          while c < l
            invariant c <= l && SkipContinuation(p, c, l) == target
            decreases l - c
          {
            if p[c] as int >= 0xC0 || p[c] as int < 0x80 {
              break;
            }
            c := c + 1;
          }
        }
        n := n - 1;
      }
    } else {
      while n < 0
        invariant n <= 0 && lb <= c <= |p| && HopBack(p, c, lb, -n) == HopBack(p, c0, lb, -n0)
        decreases -n
      {
        if c <= lb {
          return -1;
        }
        c := c - 1;
        if p[c] as int >= 0x80 {
          ghost var target := SkipBack(p, c, lb);
          while c > lb
            invariant lb <= c < |p| && SkipBack(p, c, lb) == target
          {
            if p[c] as int >= 0xC0 {
              break;
            }
            c := c - 1;
          }
        }
        n := n + 1;
      }
    }
    return c;
  }

  /** get_utf8: the character at `c` and its width; width 0 at the limit. */
  function GetUtf8(p: string, c: int, l: int): (r: (int, int))
    requires 0 <= c <= l <= |p|
    ensures 0 <= r.1 <= 3 && c + r.1 <= l && (r.1 == 0 <==> c == l)
  {
    if c >= l then (0, 0)
    else
      var b0 := p[c] as int;
      if b0 < 0xC0 || c + 1 == l then (b0, 1)
      else
        var b1 := p[c + 1] as int;
        if b0 < 0xE0 || c + 2 == l then ((b0 % 0x20) * 0x40 + b1 % 0x40, 2)
        else ((b0 % 0x10) * 0x1000 + (b1 % 0x40) * 0x40 + p[c + 2] as int % 0x40, 3)
  }

  /** get_b_utf8: the character before `c`; a three-byte character takes its lead from the byte it stopped at. */
  function GetBUtf8(p: string, c: int, lb: int): (r: (int, int))
    requires 0 <= lb <= c <= |p|
    ensures 0 <= r.1 <= 3 && (r.1 == 0 <==> c == lb)
  {
    if c <= lb then (0, 0)
    else
      var b0 := p[c - 1] as int;
      if b0 < 0x80 || c - 1 == lb then (b0, 1)
      else
        var b1 := p[c - 2] as int;
        if b1 >= 0xC0 || c - 2 == lb then ((b1 % 0x20) * 0x40 + b0 % 0x40, 2)
        else ((p[c - 2] as int % 0x10) * 0x1000 + (b1 % 0x40) * 0x40 + b0 % 0x40, 3)
  }

  /** A set of characters as a bit map, with its bounds. */
  datatype Group = Group(bits: seq<int>, min: int, max: int)

  predicate InGroup(g: Group, ch: int) {
    var k := ch - g.min;
    ch <= g.max && k >= 0 && k / 8 < |g.bits| && g.bits[k / 8] / Bit(k % 8) % 2 == 1
  }

  function Bit(k: int): (b: int)
    ensures b > 0
  {
    if k <= 0 then 1 else 2 * Bit(k - 1)
  }

  /** The end of the run of characters from `c` that are in the group, or not in it. */
  function RunEnd(p: string, c: int, l: int, g: Group, want: bool): (r: int)
    requires 0 <= c <= l <= |p|
    ensures c <= r <= l
    decreases l - c
  {
    var (ch, w) := GetUtf8(p, c, l);
    if w == 0 || InGroup(g, ch) != want then c else RunEnd(p, c + w, l, g, want)
  }

  /** The same backwards. */
  function RunStart(p: string, c: int, lb: int, g: Group, want: bool): (r: int)
    requires 0 <= lb <= c <= |p|
    ensures lb <= r <= c
    decreases c
  {
    var (ch, w) := GetBUtf8(p, c, lb);
    if w == 0 || InGroup(g, ch) != want then c else RunStart(p, c - w, lb, g, want)
  }

  /** The word under edit, struct SN_env. */
  class SnEnv {
    var p: string    // the symbols
    var c: int       // the cursor
    var l: int       // forward limit
    var lb: int      // backward limit
    var bra: int     // start of the current slice
    var ket: int     // end of the current slice
    var p1: int      // the mark p1, I[0]
    var x: int       // the mark x, I[1]
    var ch: string   // the saved slice, S[0]

    ghost predicate Valid()
      reads this
    {
      0 <= lb <= c <= l <= |p|
    }

    function View(): Cursor
      reads this
    {
      Cursor(p, c, lb, l)
    }

    /** The second loop of find_among. */
    method WalkForward(v: seq<Entry>, i0: int, common: int) returns (r: int)
      requires 0 <= i0 < |v| && LinksFall(v)
      modifies this`c
      ensures var ok := AcceptsForward(v, old(View()));
        var stop := Walk(v, ok, common, i0);
        if stop >= 0 then r == v[stop].result && c == old(c) + |v[stop].s|
        else r == 0 && c - old(c) == LastTried(v, common, i0, 0)
    {
      ghost var ok := AcceptsForward(v, View());
      var c0, i := c, i0;
      while true
        invariant 0 <= i < |v|
        invariant Walk(v, ok, common, i) == Walk(v, ok, common, i0)
        invariant LastTried(v, common, i, c - c0) == LastTried(v, common, i0, 0)
        decreases |v[i].s|
      {
        if common >= |v[i].s| {
          c := c0 + |v[i].s|;
          if v[i].guard.None? {
            return v[i].result;
          }
          var res := v[i].guard.value(View());
          c := c0 + |v[i].s|;
          if res {
            return v[i].result;
          }
        }
        i := v[i].substring;
        if i < 0 {
          return 0;
        }
      }
    }

    /**
      find_among: looks up the text ahead of the cursor in `v`.  The result is that of the longest entry
      that matches and is accepted, and the cursor moves over it; without such an entry the result
      is 0 and the cursor is left where the last refused entry put it.
    */
    method FindAmong(v: seq<Entry>) returns (r: int)
      requires Valid() && TableOk(Forward(v), v)
      modifies this`c
      ensures var best := Scan(Forward(v), AcceptsForward(v, old(View())), old(p[c..l]), |v|);
        if best >= 0 then r == v[best].result && c == old(c) + |v[best].s|
        else r == 0 && Tried(Forward(v), old(p[c..l]), 0, c - old(c))
      ensures Valid()
    {
      var i, common := BisectForward(p, c, l, v);
      FindsBest(Forward(v), v, AcceptsForward(v, View()), p[c..l], i, common);
      LinksShrinkAll(Forward(v), v);
      r := WalkForward(v, i, common);
    }

    /** The second loop of find_among_b. */
    method WalkBackward(v: seq<Entry>, i0: int, common: int) returns (r: int)
      requires 0 <= i0 < |v| && LinksFall(v)
      modifies this`c
      ensures var ok := AcceptsBackward(v, old(View()));
        var stop := Walk(v, ok, common, i0);
        if stop >= 0 then r == v[stop].result && c == old(c) - |v[stop].s|
        else r == 0 && old(c) - c == LastTried(v, common, i0, 0)
    {
      ghost var ok := AcceptsBackward(v, View());
      var c0, i := c, i0;
      while true
        invariant 0 <= i < |v|
        invariant Walk(v, ok, common, i) == Walk(v, ok, common, i0)
        invariant LastTried(v, common, i, c0 - c) == LastTried(v, common, i0, 0)
        decreases |v[i].s|
      {
        if common >= |v[i].s| {
          c := c0 - |v[i].s|;
          if v[i].guard.None? {
            return v[i].result;
          }
          var res := v[i].guard.value(View());
          c := c0 - |v[i].s|;
          if res {
            return v[i].result;
          }
        }
        i := v[i].substring;
        if i < 0 {
          return 0;
        }
      }
    }

    /**
      find_among_b: looks up the text behind the cursor in `v`.  The result is that of the longest entry
      that matches and is accepted, and the cursor moves over it; without such an entry the result
      is 0 and the cursor is left where the last refused entry put it.
    */
    method FindAmongB(v: seq<Entry>) returns (r: int)
      requires Valid() && TableOk(Backward(v), v)
      modifies this`c
      ensures var best := Scan(Backward(v), AcceptsBackward(v, old(View())), old(Reversed(p[lb..c])), |v|);
        if best >= 0 then r == v[best].result && c == old(c) - |v[best].s|
        else r == 0 && Tried(Backward(v), old(Reversed(p[lb..c])), 0, old(c) - c)
      ensures Valid()
    {
      var i, common := BisectBackward(p, c, lb, v);
      FindsBest(Backward(v), v, AcceptsBackward(v, View()), Reversed(p[lb..c]), i, common);
      LinksShrinkAll(Backward(v), v);
      r := WalkBackward(v, i, common);
    }

    /** replace_s: the symbols from `cBra` to `cKet` make room for `s`; limit and cursor follow the text. */
    method ReplaceS(cBra: int, cKet: int, s: string) returns (ret: int, adjustment: int)
      requires 0 <= cBra <= cKet <= |p|
      modifies this`p, this`l, this`c
      ensures ret == 0 && adjustment == |s| - (cKet - cBra) && l == old(l) + adjustment
      ensures p == old(p[..cBra]) + s + old(p[cKet..])
      ensures c == Moved(old(c), cBra, cKet, adjustment)
    {
      adjustment := |s| - (cKet - cBra);
      var before, after := p[..cBra], p[cKet..];
      if adjustment != 0 {
        l := l + adjustment;
        if c >= cKet {
          c := c + adjustment;
        } else if c > cBra {
          c := cBra;
        }
      }
      p := before + s + after;
      ret := 0;
    }

    /** slice_check. */
    predicate SliceOk()
      reads this
    {
      0 <= bra <= ket <= l <= |p|
    }

    /** slice_from_s: the current slice becomes `s`; -1 and no change if the slice is faulty. */
    method SliceFromS(s: string) returns (ret: int)
      modifies this`p, this`l, this`c
      ensures old(SliceOk()) ==> ret == 0 && p == old(p[..bra]) + s + old(p[ket..]) && l == old(l) + |s| - (ket - bra)
      ensures old(SliceOk()) ==> c == Moved(old(c), bra, ket, |s| - (ket - bra))
      ensures old(SliceOk()) ==>
        if old(c) >= ket then c == old(c) + |s| - (ket - bra)
        else if |s| != ket - bra && old(c) > bra then c == bra
        else c == old(c)
      ensures !old(SliceOk()) ==> ret == -1 && p == old(p) && l == old(l) && c == old(c)
    {
      if !SliceOk() {
        return -1;
      }
      var adjustment;
      ret, adjustment := ReplaceS(bra, ket, s);
    }

    /** slice_del. */
    method SliceDel() returns (ret: int)
      modifies this`p, this`l, this`c
      ensures old(SliceOk()) ==> ret == 0 && p == old(p[..bra]) + old(p[ket..]) && l == old(l) - (ket - bra)
      ensures old(SliceOk()) ==> c == Moved(old(c), bra, ket, bra - ket)
      ensures !old(SliceOk()) ==> ret == -1 && p == old(p) && l == old(l) && c == old(c)
    {
      ret := SliceFromS("");
    }

    /** insert_s: replaces a stretch of text; the current slice moves along if it starts at or after it. */
    method InsertS(bra0: int, ket0: int, s: string) returns (ret: int)
      requires 0 <= bra0 <= ket0 <= |p|
      modifies this`p, this`l, this`c, this`bra, this`ket
      ensures ret == 0 && p == old(p[..bra0]) + s + old(p[ket0..])
      ensures var d := |s| - (ket0 - bra0);
        && l == old(l) + d
        && bra == old(bra) + (if bra0 <= old(bra) then d else 0)
        && ket == old(ket) + (if bra0 <= old(ket) then d else 0)
        && c == Moved(old(c), bra0, ket0, d)
    {
      var adjustment;
      ret, adjustment := ReplaceS(bra0, ket0, s);
      if bra0 <= bra {
        bra := bra + adjustment;
      }
      if bra0 <= ket {
        ket := ket + adjustment;
      }
    }

    /** slice_to: the text of the current slice; None if the slice is faulty. */
    method SliceTo() returns (s: Option<string>)
      ensures s == if SliceOk() then Some(p[bra..ket]) else None
    {
      if !SliceOk() {
        return None;
      }
      s := Some(p[bra..ket]);
    }

    /** eq_s_b: moves back over `s` if the text behind the cursor ends with it. */
    method EqSB(s: string) returns (found: bool)
      requires Valid()
      modifies this`c
      ensures Valid()
      ensures found <==> old(lb + |s| <= c && p[c - |s|..c] == s)
      ensures c == old(c) - (if found then |s| else 0)
    {
      if c - lb < |s| || p[c - |s|..c] != s {
        return false;
      }
      c := c - |s|;
      return true;
    }

    /** in_grouping_U with `want`, out_grouping_U without: skips characters forwards. */
    method GroupingU(want: bool, g: Group, repeat: bool) returns (ret: int)
      requires Valid()
      modifies this`c
      ensures Valid()
      ensures ret == (if c == l then -1 else GetUtf8(p, c, l).1) || (ret == 0 && !repeat)
      ensures repeat ==> c == RunEnd(p, old(c), l, g, want) && ret != 0
      ensures !repeat ==> c == old(c) + (if ret == 0 then GetUtf8(p, old(c), l).1 else 0)
      ensures !repeat ==> (ret == 0 <==> old(c) < l && InGroup(g, GetUtf8(p, old(c), l).0) == want)
    {
      while true
        invariant Valid() && RunEnd(p, c, l, g, want) == RunEnd(p, old(c), l, g, want)
        invariant !repeat ==> c == old(c)
        decreases l - c
      {
        var (ch, w) := GetUtf8(p, c, l);
        if w == 0 {
          return -1;
        }
        if InGroup(g, ch) != want {
          return w;
        }
        c := c + w;
        if !repeat {
          return 0;
        }
      }
    }

    /** in_grouping_b_U with `want`, out_grouping_b_U without: skips characters backwards. */
    method GroupingBU(want: bool, g: Group, repeat: bool) returns (ret: int)
      requires Valid()
      modifies this`c
      ensures Valid()
      ensures ret == (if c == lb then -1 else GetBUtf8(p, c, lb).1) || (ret == 0 && !repeat)
      ensures repeat ==> c == RunStart(p, old(c), lb, g, want) && ret != 0
      ensures !repeat ==> c == old(c) - (if ret == 0 then GetBUtf8(p, old(c), lb).1 else 0)
      ensures !repeat ==> (ret == 0 <==> lb < old(c) && InGroup(g, GetBUtf8(p, old(c), lb).0) == want)
    {
      ret := StepBack(want, g);
      while ret == 0 && repeat
        invariant Valid() && RunStart(p, c, lb, g, want) == RunStart(p, old(c), lb, g, want)
        invariant ret != 0 ==> c == RunStart(p, c, lb, g, want)
        invariant ret != 0 ==> ret == if c == lb then -1 else GetBUtf8(p, c, lb).1
        invariant !repeat ==> c == old(c) - (if ret == 0 then GetBUtf8(p, old(c), lb).1 else 0)
        invariant !repeat ==> (ret == 0 <==> lb < old(c) && InGroup(g, GetBUtf8(p, old(c), lb).0) == want)
        decreases c - lb, ret == 0
      {
        ret := StepBack(want, g);
      }
    }

    /** One turn of the loop. */
    method StepBack(want: bool, g: Group) returns (ret: int)
      requires Valid()
      modifies this`c
      ensures Valid() && RunStart(p, c, lb, g, want) == RunStart(p, old(c), lb, g, want)
      ensures ret == 0 <==> lb < old(c) && InGroup(g, GetBUtf8(p, old(c), lb).0) == want
      ensures c == old(c) - (if ret == 0 then GetBUtf8(p, old(c), lb).1 else 0) && (ret == 0 ==> c < old(c))
      ensures ret != 0 ==> c == RunStart(p, c, lb, g, want) && ret == if c == lb then -1 else GetBUtf8(p, c, lb).1
    {
      var (ch, w) := GetBUtf8(p, c, lb);
      if w == 0 {
        return -1;
      }
      if InGroup(g, ch) != want {
        return w;
      }
      c := c - w;
      return 0;
    }
  }
}
