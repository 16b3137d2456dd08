/**
  Search tables of the Snowball runtime: byte order, longest match, and what makes the bisection
  of find_among land on it.  Everything here speaks of keys in reading order; the backward search
  reads both the text and the entries from the end.
*/
module Among {

  import opened Basics

  /** What a guard of a table entry may look at: the text, the cursor and the two limits. */
  datatype Cursor = Cursor(p: string, c: int, lb: int, l: int)

  /** One entry of a search table, struct among. */
  datatype Entry = Entry(s: string, substring: int, result: int, guard: Option<Cursor -> bool>)

  // ---------- byte order ----------

  /** The first `n` symbols of `a` and `b` are there and agree. */
  ghost predicate Agree(a: string, b: string, n: int) {
    0 <= n <= |a| && n <= |b| && forall k | 0 <= k < n :: a[k] == b[k]
  }

  /** `a` comes before `b` when compared symbol by symbol. */
  ghost predicate Before(a: string, b: string) {
    exists n :: Agree(a, b, n) && n < |b| && (n == |a| || a[n] < b[n])
  }

  lemma BeforeAsymmetric(a: string, b: string)
    requires Before(a, b)
    ensures !Before(b, a) && a != b
  {
  }

  lemma BeforeTransitive(a: string, b: string, c: string)
    requires Before(a, b) && Before(b, c)
    ensures Before(a, c)
  {
    var n :| Agree(a, b, n) && n < |b| && (n == |a| || a[n] < b[n]);
    var m :| Agree(b, c, m) && m < |c| && (m == |b| || b[m] < c[m]);
    if n < m {
      assert Agree(a, c, n) && b[n] == c[n];
    } else {
      assert Agree(a, c, m);
    }
  }

  /** A text that begins with `a` does not come before it. */
  lemma PrefixNotAfter(a: string, q: string)
    requires a <= q
    ensures !Before(q, a)
  {
  }

  /** Between two keys that agree with `q` on `m` symbols, every key does. */
  lemma Sandwich(x: string, w: string, y: string, q: string, m: int)
    requires Before(x, w) && Before(w, y) && Agree(q, x, m) && Agree(q, y, m)
    ensures Agree(q, w, m)
  {
    var n :| Agree(x, w, n) && n < |w| && (n == |x| || x[n] < w[n]);
    assert n >= m;
  }

  /** A key that is a prefix of `q` is a prefix of every key from it up to `q`. */
  lemma PrefixOfNeighbour(a: string, w: string, q: string)
    requires a <= q && Before(a, w) && !Before(q, w)
    ensures a <= w
  {
    var n :| Agree(a, w, n) && n < |w| && (n == |a| || a[n] < w[n]);
    assert Agree(q, w, n);
  }

  // ---------- tables ----------

  ghost predicate ProperPrefix(a: string, b: string) {
    a <= b && a != b
  }

  ghost predicate Sorted(keys: seq<string>) {
    forall i, j | 0 <= i < j < |keys| :: Before(keys[i], keys[j])
  }

  /** `link` names the longest other key that is a proper prefix of key `i`; it is negative if there is none. */
  ghost predicate LinkOk(keys: seq<string>, i: int, link: int)
    requires 0 <= i < |keys|
  {
    if link < 0 then forall m | 0 <= m < |keys| :: !ProperPrefix(keys[m], keys[i])
    else
      && link < |keys| && ProperPrefix(keys[link], keys[i])
      && forall m | 0 <= m < |keys| && ProperPrefix(keys[m], keys[i]) :: |keys[m]| <= |keys[link]|
  }

  ghost predicate TableOk(keys: seq<string>, v: seq<Entry>) {
    && |keys| == |v| > 0
    && Sorted(keys)
    && (forall i {:trigger keys[i]} | 0 <= i < |v| :: |keys[i]| == |v[i].s|)
    && (forall i {:trigger LinkOk(keys, i, v[i].substring)} | 0 <= i < |v| :: LinkOk(keys, i, v[i].substring))
  }

  // ---------- the plain rule ----------

  /**
    A scan of the first `n` entries for the longest key that begins the text `q` and whose guard
    accepts; -1 if there is none.
  */
  ghost function Scan(keys: seq<string>, ok: seq<bool>, q: string, n: nat): (b: int)
    requires n <= |keys| == |ok|
    ensures -1 <= b < n
    ensures b >= 0 ==> keys[b] <= q && ok[b]
    ensures forall m | 0 <= m < n && keys[m] <= q && ok[m] :: b >= 0 && |keys[m]| <= |keys[b]|
  {
    if n == 0 then -1
    else
      var b := Scan(keys, ok, q, n - 1);
      if keys[n - 1] <= q && ok[n - 1] && (b < 0 || |keys[b]| < |keys[n - 1]|) then n - 1 else b
  }

  /** No two keys of a sorted table begin the same text with the same length. */
  lemma OneOfALength(keys: seq<string>, q: string, i: int, j: int)
    requires Sorted(keys) && 0 <= i < |keys| && 0 <= j < |keys|
    requires keys[i] <= q && keys[j] <= q && |keys[i]| == |keys[j]|
    ensures i == j
  {
    assert keys[i] == keys[j];
    if i < j {
      BeforeAsymmetric(keys[i], keys[j]);
    } else if j < i {
      BeforeAsymmetric(keys[j], keys[i]);
    }
  }

  /** A key at least as long as every accepted match is what the scan finds. */
  lemma ScanIs(keys: seq<string>, ok: seq<bool>, q: string, b: int)
    requires Sorted(keys) && |ok| == |keys| && 0 <= b < |keys| && keys[b] <= q && ok[b]
    requires forall m | 0 <= m < |keys| && keys[m] <= q && ok[m] :: |keys[m]| <= |keys[b]|
    ensures Scan(keys, ok, q, |keys|) == b
  {
    OneOfALength(keys, q, b, Scan(keys, ok, q, |keys|));
  }

  // ---------- where the bisection lands ----------

  /** `n` is the length of the common prefix of `q` and `k`. */
  ghost predicate IsCommon(q: string, k: string, n: int) {
    Agree(q, k, n) && (n == |q| || n == |k| || q[n] != k[n])
  }

  /** The last key that is not after `q`, with the length it shares with `q`; the first key if all are after. */
  ghost predicate Landed(keys: seq<string>, q: string, i: int, common: int) {
    && 0 <= i < |keys|
    && (forall m | i < m < |keys| :: Before(q, keys[m]))
    && if Before(q, keys[i]) then i == 0 && common == 0 else IsCommon(q, keys[i], common)
  }

  /** Every key that begins the text is a prefix of the key where the bisection landed. */
  lemma MatchesArePrefixes(keys: seq<string>, q: string, i: int, common: int, m: int)
    requires Sorted(keys) && Landed(keys, q, i, common) && 0 <= m < |keys| && keys[m] <= q
    ensures !Before(q, keys[i]) && keys[m] <= keys[i] && |keys[m]| <= common
  {
    PrefixNotAfter(keys[m], q);
    assert m <= i;
    if m < i {
      PrefixOfNeighbour(keys[m], keys[i], q);
    }
    assert Agree(q, keys[i], |keys[m]|);
  }

  /** A prefix of the key where the bisection landed begins the text if it is no longer than the common part. */
  lemma PrefixMatches(keys: seq<string>, q: string, i: int, common: int, k: string)
    requires Landed(keys, q, i, common) && k <= keys[i]
    ensures |k| <= common && !Before(q, keys[i]) ==> k <= q
    ensures |k| <= common && Before(q, keys[i]) ==> |k| == 0
  {
  }

  /** The invariant of the bisection; `seen` says that key `i` has been compared with `q`. */
  ghost predicate Bisecting(keys: seq<string>, q: string, i: int, j: int, commonI: int, commonJ: int, seen: bool) {
    && 0 <= i <= j <= |keys| && i < |keys|
    && (if j < |keys| then Before(q, keys[j]) && Agree(q, keys[j], commonJ) else commonJ == 0)
    && (if seen then !Before(q, keys[i]) && IsCommon(q, keys[i], commonI) else i == 0 && commonI == 0)
  }

  /** The smaller of the two common lengths need not be compared again. */
  lemma CommonIsKnown(keys: seq<string>, q: string, i: int, j: int, commonI: int, commonJ: int, seen: bool, k: int)
    requires Sorted(keys) && Bisecting(keys, q, i, j, commonI, commonJ, seen) && i <= k < j
    ensures Agree(q, keys[k], if commonI < commonJ then commonI else commonJ)
  {
    var m := if commonI < commonJ then commonI else commonJ;
    if i < k && j < |keys| && seen {
      Sandwich(keys[i], keys[k], keys[j], q, m);
    }
  }

  /** All keys from `j` on are after `q`. */
  lemma RestIsAfter(keys: seq<string>, q: string, j: int)
    requires Sorted(keys) && 0 <= j < |keys| && Before(q, keys[j])
    ensures forall m | j <= m < |keys| :: Before(q, keys[m])
  {
    forall m | j < m < |keys| ensures Before(q, keys[m]) {
      BeforeTransitive(q, keys[j], keys[m]);
    }
  }

  // ---------- the walk along the links ----------

  /** Every match of at least `h` symbols has been tried and refused. */
  ghost predicate Refused(keys: seq<string>, ok: seq<bool>, q: string, h: int) {
    |ok| == |keys| && forall m | 0 <= m < |keys| && keys[m] <= q && |keys[m]| >= h :: !ok[m]
  }

  /** `d` is the length of the shortest match of at least `h` symbols, 0 if there is none. */
  ghost predicate Tried(keys: seq<string>, q: string, h: int, d: int) {
    || (d == 0 && forall m | 0 <= m < |keys| && keys[m] <= q :: |keys[m]| < h)
    || (exists t :: 0 <= t < |keys| && keys[t] <= q && |keys[t]| == d && h <= d &&
          forall m | 0 <= m < |keys| && keys[m] <= q && h <= |keys[m]| :: d <= |keys[m]|)
  }

  lemma WalkStarts(keys: seq<string>, ok: seq<bool>, q: string, i: int, common: int)
    requires Sorted(keys) && Landed(keys, q, i, common) && |ok| == |keys|
    ensures Refused(keys, ok, q, |keys[i]| + 1) && Tried(keys, q, |keys[i]| + 1, 0)
  {
    forall m | 0 <= m < |keys| && keys[m] <= q ensures |keys[m]| <= |keys[i]| {
      MatchesArePrefixes(keys, q, i, common, m);
    }
  }

  /** Nothing lies between a key and the one its link names. */
  lemma LinkSkipsNothing(keys: seq<string>, q: string, i: int, common: int, x: int, link: int, m: int)
    requires Sorted(keys) && Landed(keys, q, i, common) && 0 <= x < |keys| && keys[x] <= keys[i] &&
      LinkOk(keys, x, link)
    requires 0 <= m < |keys| && keys[m] <= q && |keys[m]| < |keys[x]|
    ensures link >= 0 && |keys[m]| <= |keys[link]|
  {
    MatchesArePrefixes(keys, q, i, common, m);
    assert ProperPrefix(keys[m], keys[x]);
  }

  lemma LinkStep(keys: seq<string>, ok: seq<bool>, q: string, i: int, common: int, x: int, link: int, d: int)
    requires Sorted(keys) && Landed(keys, q, i, common) && 0 <= x < |keys| && keys[x] <= keys[i] &&
      LinkOk(keys, x, link)
    requires Refused(keys, ok, q, |keys[x]|) && Tried(keys, q, |keys[x]|, d)
    ensures link < 0 ==> Refused(keys, ok, q, 0) && Tried(keys, q, 0, d)
    ensures link >= 0 ==> Refused(keys, ok, q, |keys[link]| + 1) && Tried(keys, q, |keys[link]| + 1, d)
  {
    forall m | 0 <= m < |keys| && keys[m] <= q && |keys[m]| < |keys[x]|
      ensures link >= 0 && |keys[m]| <= |keys[link]|
    {
      LinkSkipsNothing(keys, q, i, common, x, link, m);
    }
    if exists t :: 0 <= t < |keys| && keys[t] <= q && |keys[t]| == d && |keys[x]| <= d &&
          forall m | 0 <= m < |keys| && keys[m] <= q && |keys[x]| <= |keys[m]| :: d <= |keys[m]| {
      var t :| 0 <= t < |keys| && keys[t] <= q && |keys[t]| == d && |keys[x]| <= d &&
          forall m | 0 <= m < |keys| && keys[m] <= q && |keys[x]| <= |keys[m]| :: d <= |keys[m]|;
    }
  }

  /** The entry `x` that the walk has reached: longer matches are refused, so it is tried if it begins the text. */
  lemma TryEntry(keys: seq<string>, ok: seq<bool>, q: string, i: int, common: int, x: int, d: int)
    requires Sorted(keys) && Landed(keys, q, i, common) && 0 <= x < |keys| && keys[x] <= keys[i] && |ok| == |keys|
    requires Refused(keys, ok, q, |keys[x]| + 1) && Tried(keys, q, |keys[x]| + 1, d)
    ensures common >= |keys[x]| <==> keys[x] <= q
    ensures keys[x] <= q && ok[x] ==> Scan(keys, ok, q, |keys|) == x
    ensures keys[x] <= q && !ok[x] ==> Refused(keys, ok, q, |keys[x]|) && Tried(keys, q, |keys[x]|, |keys[x]|)
    ensures !(keys[x] <= q) ==> Refused(keys, ok, q, |keys[x]|) && Tried(keys, q, |keys[x]|, d)
  {
    PrefixMatches(keys, q, i, common, keys[x]);
    if keys[x] <= q {
      MatchesArePrefixes(keys, q, i, common, x);
      if ok[x] {
        ScanIs(keys, ok, q, x);
      }
    }
    forall m | 0 <= m < |keys| && keys[m] <= q && |keys[m]| == |keys[x]| ensures keys[x] <= q && m == x {
      MatchesArePrefixes(keys, q, i, common, m);
      assert keys[m] == keys[x];
      OneOfALength(keys, q, m, x);
    }
  }

  /** Where the walk from entry `x` stops: at the first accepted entry within the common part, or -1. */
  ghost function Walk(v: seq<Entry>, ok: seq<bool>, common: int, x: int): (stop: int)
    requires 0 <= x < |v| == |ok|
    ensures stop < |v|
    decreases |v[x].s|
  {
    var next := v[x].substring;
    if common >= |v[x].s| && ok[x] then x
    else if next < 0 || next >= |v| || |v[next].s| >= |v[x].s| then -1
    else Walk(v, ok, common, next)
  }

  /** The length of the entry tried last when the walk from `x` ends without success; `d` before the walk. */
  ghost function LastTried(v: seq<Entry>, common: int, x: int, d: int): int
    requires 0 <= x < |v|
    decreases |v[x].s|
  {
    var next := v[x].substring;
    var d' := if common >= |v[x].s| then |v[x].s| else d;
    if next < 0 || next >= |v| || |v[next].s| >= |v[x].s| then d'
    else LastTried(v, common, next, d')
  }

  /** The walk finds what the scan finds. */
  lemma {:induction false} WalkFindsBest(keys: seq<string>, v: seq<Entry>, ok: seq<bool>, q: string, i: int,
      common: int, x: int, d: int)
    requires TableOk(keys, v) && Landed(keys, q, i, common) && 0 <= x < |keys| && keys[x] <= keys[i] && |ok| == |keys|
    requires Refused(keys, ok, q, |keys[x]| + 1) && Tried(keys, q, |keys[x]| + 1, d)
    ensures Walk(v, ok, common, x) == Scan(keys, ok, q, |keys|)
    ensures Walk(v, ok, common, x) < 0 ==> Tried(keys, q, 0, LastTried(v, common, x, d))
    decreases |keys[x]|
  {
    TryEntry(keys, ok, q, i, common, x, d);
    if !(keys[x] <= q && ok[x]) {
      var link := v[x].substring;
      var d' := if common >= |keys[x]| then |keys[x]| else d;
      LinkStep(keys, ok, q, i, common, x, link, d');
      if link >= 0 {
        WalkFindsBest(keys, v, ok, q, i, common, link, d');
      }
    }
  }

  /** The two loops together obey the plain rule. */
  lemma FindsBest(keys: seq<string>, v: seq<Entry>, ok: seq<bool>, q: string, i: int, common: int)
    requires TableOk(keys, v) && Landed(keys, q, i, common) && |ok| == |keys|
    ensures Walk(v, ok, common, i) == Scan(keys, ok, q, |keys|)
    ensures Walk(v, ok, common, i) < 0 ==> Tried(keys, q, 0, LastTried(v, common, i, 0))
  {
    WalkStarts(keys, ok, q, i, common);
    WalkFindsBest(keys, v, ok, q, i, common, i, 0);
  }

  lemma LinksShrink(keys: seq<string>, v: seq<Entry>, x: int)
    requires TableOk(keys, v) && 0 <= x < |v|
    ensures v[x].substring >= 0 ==> v[x].substring < |v| && |v[v[x].substring].s| < |v[x].s|
  {
    assert LinkOk(keys, x, v[x].substring);
  }
}
