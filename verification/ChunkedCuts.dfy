/**
 * Exactly which cuts of a chunked stream are harmless: a reader that gets the stream in
 * pieces follows a track along the chunks, and leaves it only at certain cuts.
 */
module ChunkedCuts {
  import opened Basics
  import opened Evbuffer
  import opened Chunked

  type SizeReader = seq<byte> -> Size

  ghost predicate Fits(chunks: seq<seq<byte>>) {
    forall i {:trigger chunks[i]} :: 0 <= i < |chunks| ==> 0 < |chunks[i]| < 0x1_0000_0000
  }

  predicate AllBreaks(s: seq<byte>) {
    forall i :: 0 <= i < |s| ==> LineBreak(s[i])
  }

  predicate AllLF(s: seq<byte>) {
    forall i :: 0 <= i < |s| ==> s[i] == LF
  }

  // A cut with m bytes still to come parts the CR and the LF of the size line of a chunk
  // that is not made of line feeds, or of the last size line.
  predicate Spoils(chunks: seq<seq<byte>>, m: int)
    decreases |chunks|
  {
    if chunks == [] then m == 3
    else (m == |chunks[0]| + 3 + |Encoded(chunks[1..])| && !AllLF(chunks[0])) || Spoils(chunks[1..], m)
  }

  lemma {:induction false} SpoilsRange(chunks: seq<seq<byte>>, m: int)
    requires Spoils(chunks, m) && Fits(chunks)
    ensures 3 <= m < |Encoded(chunks)|
    decreases |chunks|
  {
    if chunks != [] && Spoils(chunks[1..], m) {
      SpoilsRange(chunks[1..], m);
    }
  }

  // ---------------------------------------------------------------- skipping

  lemma {:induction false} SkipBreaks(z: SizeReader, junk: seq<byte>, rest: seq<byte>, body: seq<byte>)
    requires AllBreaks(junk)
    ensures Run(z, -1, junk + rest, body) == Run(z, -1, rest, body)
    decreases |junk|
  {
    if junk == [] {
      assert junk + rest == rest;
    } else {
      assert (junk + rest)[1..] == junk[1..] + rest;
      SkipOne(z, -1, junk + rest, body);
      SkipBreaks(z, junk[1..], rest, body);
    }
  }

  // ---------------------------------------------------------------- the track

  // Where a reader stands on the track: the chunks ahead, the body so far, whether it is
  // inside the data of the first chunk ahead, and the line breaks before the next line.
  datatype Track = Track(chunks: seq<seq<byte>>, body: seq<byte>, inside: bool, junk: seq<byte>)

  // The chunks whose size lines are still ahead.
  function Lines(t: Track): seq<seq<byte>> {
    if t.inside && t.chunks != [] then t.chunks[1..] else t.chunks
  }

  function Whole(t: Track): seq<byte> {
    t.body + Concat(t.chunks)
  }

  // What the reader has left and what is to come spell the track.
  ghost predicate Along(r: Reader, ahead: seq<byte>, t: Track) {
    Fits(t.chunks) && AllBreaks(t.junk) && r.status.MoreExpected? && r.body == t.body &&
    if t.inside then
      t.chunks != [] && r.ntoread == |t.chunks[0]| && r.rest + ahead == t.chunks[0] + t.junk + Encoded(t.chunks[1..])
    else
      r.ntoread == -1 && r.rest + ahead == t.junk + Encoded(t.chunks)
  }

  // Off the track: the message is over with the wrong bytes left, or the next chunk will
  // not be the one that was sent.
  ghost predicate Astray(r: Reader, ahead: seq<byte>, whole: seq<byte>) {
    (r.status.AllRead? && r.rest + ahead != CRLF) ||
    (r.status.MoreExpected? && r.rest == [] && 0 < r.ntoread <= |ahead| && !(r.body + ahead[..r.ntoread] <= whole))
  }

  // Home: the message is over and the blank line at its end is left.
  ghost predicate Home(r: Reader, ahead: seq<byte>, whole: seq<byte>) {
    r.status.AllRead? && r.ntoread == 0 && r.body == whole && r.rest + ahead == CRLF
  }

  // Further along, past size lines that no later cut can part.
  ghost predicate Onward(r: Reader, ahead: seq<byte>, whole: seq<byte>, lines: seq<seq<byte>>, t: Track) {
    Along(r, ahead, t) && Whole(t) == whole &&
    forall m {:trigger Spoils(lines, m)} :: m <= |ahead| ==> (Spoils(Lines(t), m) <==> Spoils(lines, m))
  }

  // What a reader that was on the track comes to at a cut.
  ghost predicate Judged(r: Reader, ahead: seq<byte>, whole: seq<byte>, lines: seq<seq<byte>>) {
    // A let expression keeps the verifier from splitting the verdict into its cases.
    var judged := if Spoils(lines, |ahead|) then Astray(r, ahead, whole)
                  else Home(r, ahead, whole) || exists t :: Onward(r, ahead, whole, lines, t);
    judged
  }

  // The cut falls at or behind the end of a, or before it.
  lemma {:induction false} CutBehind(q: seq<byte>, ahead: seq<byte>, a: seq<byte>, b: seq<byte>)
    requires q + ahead == a + b && |q| >= |a|
    ensures q == a + q[|a|..] && q[..|a|] == a && q[|a|..] + ahead == b
  {
    assert q[..|a|] == (q + ahead)[..|a|] == a;
    assert q[|a|..] + ahead == (q + ahead)[|a|..] == b;
  }

  lemma {:induction false} CutBefore(q: seq<byte>, ahead: seq<byte>, a: seq<byte>, b: seq<byte>)
    requires q + ahead == a + b && |q| <= |a|
    ensures q == a[..|q|] && ahead == a[|q|..] + b
  {
    assert q == (q + ahead)[..|q|] == a[..|q|];
    assert ahead == (q + ahead)[|q|..] == a[|q|..] + b;
  }

  lemma {:induction false} StillOn(r: Reader, ahead: seq<byte>, whole: seq<byte>, lines: seq<seq<byte>>, t: Track)
    requires Onward(r, ahead, whole, lines, t) && Fits(lines) && |ahead| >= |Encoded(lines)|
    ensures Judged(r, ahead, whole, lines)
  {
    if Spoils(lines, |ahead|) {
      SpoilsRange(lines, |ahead|);
    }
  }

  // ---- from a line

  // The part of the stream that has arrived is q, and ahead is to come.
  lemma {:induction false} FromLine(z: SizeReader, chunks: seq<seq<byte>>, junk: seq<byte>, q: seq<byte>,
      ahead: seq<byte>, body: seq<byte>)
    requires ReadsHex(z) && Fits(chunks) && AllBreaks(junk) && q + ahead == junk + Encoded(chunks)
    ensures Judged(Run(z, -1, q, body), ahead, body + Concat(chunks), chunks)
    decreases |chunks|, 1
  {
    if |q| <= |junk| {
      InJunk(z, chunks, junk, q, ahead, body);
    } else {
      var q1 := q[|junk|..];
      CutBehind(q, ahead, junk, Encoded(chunks));
      SkipBreaks(z, junk, q1, body);
      if chunks == [] {
        AtLast(z, q1, ahead, body);
      } else {
        AtSize(z, chunks, q1, ahead, body);
      }
    }
  }

  lemma {:induction false} InJunk(z: SizeReader, chunks: seq<seq<byte>>, junk: seq<byte>, q: seq<byte>,
      ahead: seq<byte>, body: seq<byte>)
    requires Fits(chunks) && AllBreaks(junk) && q + ahead == junk + Encoded(chunks) && |q| <= |junk|
    ensures Judged(Run(z, -1, q, body), ahead, body + Concat(chunks), chunks)
  {
    var left := junk[|q|..];
    CutBefore(q, ahead, junk, Encoded(chunks));
    SkipBreaks(z, q, [], body);
    assert q + [] == q;
    var r := Run(z, -1, q, body);
    assert r == Reader(MoreExpected, -1, body, []);
    var t := Track(chunks, body, false, left);
    assert [] + ahead == ahead;
    StillOn(r, ahead, body + Concat(chunks), chunks, t);
  }

  // Cuts nearer the end than a size line do not part it.
  lemma {:induction false} JudgedPast(r: Reader, ahead: seq<byte>, whole: seq<byte>, chunks: seq<seq<byte>>)
    requires chunks != [] && (|ahead| < |chunks[0]| + 3 + |Encoded(chunks[1..])| || AllLF(chunks[0]))
    requires |ahead| <= |chunks[0]| + 3 + |Encoded(chunks[1..])|
    requires Judged(r, ahead, whole, chunks[1..])
    ensures Judged(r, ahead, whole, chunks)
  {
    assert forall m {:trigger Spoils(chunks, m)} :: m <= |ahead| ==> (Spoils(chunks[1..], m) <==> Spoils(chunks, m));
    if !Spoils(chunks, |ahead|) && !Home(r, ahead, whole) {
      var t :| Onward(r, ahead, whole, chunks[1..], t);
      assert Onward(r, ahead, whole, chunks, t);
    }
  }

  // The last size line: "0" alone is not yet a line, "0" and CR end the message too soon.
  lemma {:induction false} AtLast(z: SizeReader, q: seq<byte>, ahead: seq<byte>, body: seq<byte>)
    requires ReadsHex(z) && q != [] && q + ahead == LAST
    ensures Judged(Run(z, -1, q, body), ahead, body + Concat([]), [])
  {
    assert q == LAST[..|q|] && ahead == LAST[|q|..];
    assert Hex(0) == [48] && z([48]) == Size(0);
    var r := Run(z, -1, q, body);
    assert body + Concat([]) == body;
    if |q| == 1 {
      assert LineEnd(q) == 1;
      assert Onward(r, ahead, body, [], Track([], body, false, []));
    } else {
      assert q[0] == 48 && q[1] == CR && LineEnd(q) == 1;
      assert q[..1] == [48] && CString([48]) == [48];
      assert r == Reader(AllRead, 0, body, q[LineNext(q)..]);
      if |q| == 2 {
        assert LineNext(q) == 2 && ahead == [LF, CR, LF];
      } else {
        assert q[2] == LF && LineNext(q) == 3;
        assert q[3..] + ahead == (q + ahead)[3..] == CRLF;
      }
    }
  }

  // The size line of a chunk.
  lemma {:induction false} AtSize(z: SizeReader, chunks: seq<seq<byte>>, q: seq<byte>, ahead: seq<byte>,
      body: seq<byte>)
    requires ReadsHex(z) && Fits(chunks) && chunks != [] && q != [] && q + ahead == Encoded(chunks)
    ensures Judged(Run(z, -1, q, body), ahead, body + Concat(chunks), chunks)
    decreases |chunks|, 0
  {
    var d, h, e := chunks[0], Hex(|chunks[0]|), Encoded(chunks[1..]);
    assert q + ahead == h + CRLF + (d + CRLF + e);
    if |q| <= |h| {
      InSize(z, chunks, q, ahead, body);
    } else if |q| == |h| + 1 {
      PartedSize(z, chunks, q, ahead, body);
    } else {
      var q2 := q[|h| + 2..];
      CutBehind(q, ahead, h + CRLF, d + CRLF + e);
      ReadSizeLine(z, |d|, q2, body);
      FromData(z, chunks, CRLF, q2, ahead, body);
      JudgedPast(Run(z, -1, q, body), ahead, body + Concat(chunks), chunks);
    }
  }

  // Only digits have arrived: the reader waits for the line.
  lemma {:induction false} InSize(z: SizeReader, chunks: seq<seq<byte>>, q: seq<byte>, ahead: seq<byte>,
      body: seq<byte>)
    requires Fits(chunks) && chunks != [] && q != [] && q + ahead == Encoded(chunks) && |q| <= |Hex(|chunks[0]|)|
    ensures Judged(Run(z, -1, q, body), ahead, body + Concat(chunks), chunks)
  {
    OnlyDigits(chunks, q, ahead);
    WaitsForLine(z, q, body);
    StillWaiting(chunks, q, ahead, body);
  }

  lemma {:induction false} OnlyDigits(chunks: seq<seq<byte>>, q: seq<byte>, ahead: seq<byte>)
    requires Fits(chunks) && chunks != [] && q + ahead == Encoded(chunks) && |q| <= |Hex(|chunks[0]|)|
    ensures forall i :: 0 <= i < |q| ==> IsHex(q[i])
  {
    var h, rest := Hex(|chunks[0]|), CRLF + (chunks[0] + CRLF + Encoded(chunks[1..]));
    assert q + ahead == h + rest;
    CutBefore(q, ahead, h, rest);
  }

  lemma {:induction false} StillWaiting(chunks: seq<seq<byte>>, q: seq<byte>, ahead: seq<byte>, body: seq<byte>)
    requires Fits(chunks) && chunks != [] && q + ahead == Encoded(chunks) && |q| <= |Hex(|chunks[0]|)|
    ensures Judged(Reader(MoreExpected, -1, body, q), ahead, body + Concat(chunks), chunks)
  {
    var r, t := Reader(MoreExpected, -1, body, q), Track(chunks, body, false, []);
    assert [] + Encoded(chunks) == Encoded(chunks);
    assert Onward(r, ahead, body + Concat(chunks), chunks, t);
    if Spoils(chunks, |ahead|) {
      NotInSize(chunks, |ahead|);
    }
  }

  lemma {:induction false} WaitsForLine(z: SizeReader, q: seq<byte>, body: seq<byte>)
    requires q != [] && forall i :: 0 <= i < |q| ==> IsHex(q[i])
    ensures Run(z, -1, q, body) == Reader(MoreExpected, -1, body, q)
  {
    assert LineEnd(q) == |q|;
  }

  lemma {:induction false} NotInSize(chunks: seq<seq<byte>>, m: int)
    requires Fits(chunks) && chunks != [] && Spoils(chunks, m)
    ensures m <= |chunks[0]| + 3 + |Encoded(chunks[1..])|
  {
    if Spoils(chunks[1..], m) {
      SpoilsRange(chunks[1..], m);
    }
  }

  // The CR has arrived without its LF: the reader takes the LF for the first byte of the data.
  lemma {:induction false} PartedSize(z: SizeReader, chunks: seq<seq<byte>>, q: seq<byte>, ahead: seq<byte>,
      body: seq<byte>)
    requires ReadsHex(z) && Fits(chunks) && chunks != [] && q + ahead == Encoded(chunks) &&
      |q| == |Hex(|chunks[0]|)| + 1
    ensures Judged(Run(z, -1, q, body), ahead, body + Concat(chunks), chunks)
  {
    PartedSlices(chunks, q, ahead);
    ReadParted(z, |chunks[0]|, q, body);
    if AllLF(chunks[0]) {
      PartedLF(chunks, ahead, body);
    } else {
      PartedOther(chunks, ahead, body);
    }
  }

  lemma {:induction false} PartedSlices(chunks: seq<seq<byte>>, q: seq<byte>, ahead: seq<byte>)
    requires Fits(chunks) && chunks != [] && q + ahead == Encoded(chunks) && |q| == |Hex(|chunks[0]|)| + 1
    ensures q == Hex(|chunks[0]|) + [CR] && ahead == [LF] + chunks[0] + CRLF + Encoded(chunks[1..])
  {
    var h, d, e := Hex(|chunks[0]|), chunks[0], Encoded(chunks[1..]);
    Parted(h, d, e);
    CutAt(q, ahead, h + [CR], [LF] + d + CRLF + e);
  }

  lemma {:induction false} Parted(h: seq<byte>, d: seq<byte>, e: seq<byte>)
    ensures (h + CRLF + d + CRLF) + e == (h + [CR]) + ([LF] + d + CRLF + e)
  {
    assert CRLF == [CR] + [LF];
  }

  lemma {:induction false} CutAt(q: seq<byte>, ahead: seq<byte>, a: seq<byte>, b: seq<byte>)
    requires q + ahead == a + b && |q| == |a|
    ensures q == a && ahead == b
  {
    CutBehind(q, ahead, a, b);
    assert q[|a|..] == [] && q[|a|..] + ahead == ahead;
  }

  lemma {:induction false} PartedLF(chunks: seq<seq<byte>>, ahead: seq<byte>, body: seq<byte>)
    requires Fits(chunks) && chunks != [] && AllLF(chunks[0])
    requires ahead == [LF] + chunks[0] + CRLF + Encoded(chunks[1..])
    ensures Judged(Reader(MoreExpected, |chunks[0]|, body, []), ahead, body + Concat(chunks), chunks)
  {
    var d, e := chunks[0], Encoded(chunks[1..]);
    var r, t := Reader(MoreExpected, |d|, body, []), Track(chunks, body, true, [LF, CR, LF]);
    assert [LF] + d == d + [LF];
    assert [] + ahead == d + [LF, CR, LF] + e;
    assert Onward(r, ahead, Whole(t), chunks[1..], t);
    assert Fits(chunks[1..]);
    StillOn(r, ahead, Whole(t), chunks[1..], t);
    JudgedPast(r, ahead, Whole(t), chunks);
  }

  lemma {:induction false} PartedOther(chunks: seq<seq<byte>>, ahead: seq<byte>, body: seq<byte>)
    requires Fits(chunks) && chunks != [] && !AllLF(chunks[0])
    requires ahead == [LF] + chunks[0] + CRLF + Encoded(chunks[1..])
    ensures Judged(Reader(MoreExpected, |chunks[0]|, body, []), ahead, body + Concat(chunks), chunks)
  {
    var d := chunks[0];
    ShiftedDiffers(d, ahead[..|d|], body, Concat(chunks[1..]));
    assert body + Concat(chunks) == body + (d + Concat(chunks[1..]));
  }

  lemma {:induction false} ReadParted(z: SizeReader, n: nat, q: seq<byte>, body: seq<byte>)
    requires ReadsHex(z) && 0 < n <= LLONG_MAX && q == Hex(n) + [CR]
    ensures Run(z, -1, q, body) == Reader(MoreExpected, n, body, [])
  {
    var h := Hex(n);
    assert forall i :: 0 <= i < |h| ==> q[i] == h[i];
    assert q[|h|] == CR && LineEnd(q) == |h| && q[..|h|] == h;
    assert CString(h) == h by { assert h[..|h|] == h; }
    assert q[LineNext(q)..] == [];
    assert z(h) == Size(n);
  }

  // A line feed in front of data that is not all line feeds is not the data.
  lemma {:induction false} ShiftedDiffers(d: seq<byte>, x: seq<byte>, body: seq<byte>, rest: seq<byte>)
    requires !AllLF(d) && |x| == |d| && x[0] == LF && forall i :: 0 < i < |d| ==> x[i] == d[i - 1]
    ensures !(body + x <= body + (d + rest))
  {
    if body + x <= body + (d + rest) {
      assert forall i :: 0 <= i < |x| ==> x[i] == (body + x)[|body| + i] == (body + (d + rest))[|body| + i] == d[i];
      SameIsLF(d, x, |d|);
    }
  }

  lemma {:induction false} SameIsLF(d: seq<byte>, x: seq<byte>, k: nat)
    requires |x| == |d| && k <= |d| && (d != [] ==> x[0] == LF) && (forall i :: 0 < i < |d| ==> x[i] == d[i - 1])
    requires forall i :: 0 <= i < |d| ==> x[i] == d[i]
    ensures forall i :: 0 <= i < k ==> d[i] == LF
  {
    if k > 0 {
      SameIsLF(d, x, k - 1);
    }
  }

  // ---- from data

  lemma {:induction false} ReadData(z: SizeReader, n: nat, q: seq<byte>, body: seq<byte>)
    requires 0 < n <= |q|
    ensures Run(z, n, q, body) == Run(z, -1, q[n..], body + q[..n])
  {
  }

  lemma {:induction false} FromData(z: SizeReader, chunks: seq<seq<byte>>, junk: seq<byte>, q: seq<byte>,
      ahead: seq<byte>, body: seq<byte>)
    requires ReadsHex(z) && Fits(chunks) && AllBreaks(junk) && chunks != []
    requires q + ahead == chunks[0] + junk + Encoded(chunks[1..])
    ensures Judged(Run(z, |chunks[0]|, q, body), ahead, body + Concat(chunks), chunks[1..])
    decreases |chunks[1..]|, 2
  {
    var d, n := chunks[0], |chunks[0]|;
    if |q| < n {
      var r, t := Reader(MoreExpected, n, body, q), Track(chunks, body, true, junk);
      assert Run(z, n, q, body) == r;
      assert Onward(r, ahead, body + Concat(chunks), chunks[1..], t);
      assert Fits(chunks[1..]);
      StillOn(r, ahead, body + Concat(chunks), chunks[1..], t);
    } else {
      assert q + ahead == d + (junk + Encoded(chunks[1..]));
      CutBehind(q, ahead, d, junk + Encoded(chunks[1..]));
      assert Fits(chunks[1..]);
      ReadData(z, n, q, body);
      FromLine(z, chunks[1..], junk, q[n..], ahead, body + d);
      assert body + d + Concat(chunks[1..]) == body + Concat(chunks);
    }
  }

  // ---------------------------------------------------------------- off the track, for good

  lemma {:induction false} BodyGrows(z: SizeReader, n: int, input: seq<byte>, body: seq<byte>)
    ensures body <= Run(z, n, input, body).body
    decreases |input|, n >= 0
  {
    if input != [] {
      if n >= 0 && |input| >= n {
        BodyGrows(z, -1, input[n..], body + input[..n]);
      } else if n < 0 && LineEnd(input) < |input| {
        var c, rest := CString(input[..LineEnd(input)]), input[LineNext(input)..];
        if c == [] {
          BodyGrows(z, n, rest, body);
        } else if z(c).Size? && z(c).n > 0 {
          BodyGrows(z, z(c).n, rest, body);
        }
      }
    }
  }

  lemma {:induction false} FedGrows(z: SizeReader, r: Reader, pieces: seq<seq<byte>>)
    ensures r.body <= Fed(z, r, pieces).body
    decreases |pieces|
  {
    if pieces != [] {
      if r.status.MoreExpected? {
        BodyGrows(z, r.ntoread, r.rest + pieces[0], r.body);
      }
      FedGrows(z, Resume(z, r, pieces[0]), pieces[1..]);
    }
  }

  lemma {:induction false} FedWhenDone(z: SizeReader, r: Reader, pieces: seq<seq<byte>>)
    requires !r.status.MoreExpected?
    ensures Fed(z, r, pieces) == r.(rest := r.rest + Joined(pieces))
    decreases |pieces|
  {
    if pieces == [] {
      assert r.rest + [] == r.rest;
    } else {
      FedWhenDone(z, Resume(z, r, pieces[0]), pieces[1..]);
      assert r.rest + pieces[0] + Joined(pieces[1..]) == r.rest + Joined(pieces);
    }
  }

  // The bytes a reader waits for become its body, however they arrive.
  lemma {:induction false} DataArrives(z: SizeReader, r: Reader, pieces: seq<seq<byte>>)
    requires r.status.MoreExpected? && |r.rest| < r.ntoread <= |r.rest + Joined(pieces)|
    ensures r.body + (r.rest + Joined(pieces))[..r.ntoread] <= Fed(z, r, pieces).body
    decreases |pieces|
  {
    if pieces != [] {
      var n, q, more := r.ntoread, r.rest + pieces[0], Joined(pieces[1..]);
      assert r.rest + Joined(pieces) == q + more;
      var r' := Resume(z, r, pieces[0]);
      if |q| < n {
        assert r' == Reader(MoreExpected, n, r.body, q);
        DataArrives(z, r', pieces[1..]);
      } else {
        ReadData(z, n, q, r.body);
        BodyGrows(z, -1, q[n..], r.body + q[..n]);
        FedGrows(z, r', pieces[1..]);
        assert (q + more)[..n] == q[..n];
      }
    }
  }

  // The reader, done with the message.
  function Target(whole: seq<byte>): Reader {
    Reader(AllRead, 0, whole, CRLF)
  }

  lemma {:induction false} AstrayForever(z: SizeReader, r: Reader, pieces: seq<seq<byte>>, whole: seq<byte>)
    requires Astray(r, Joined(pieces), whole)
    ensures Fed(z, r, pieces) != Target(whole)
  {
    if r.status.AllRead? {
      FedWhenDone(z, r, pieces);
    } else {
      DataArrives(z, r, pieces);
      assert r.rest + Joined(pieces) == Joined(pieces);
    }
  }

  // ---------------------------------------------------------------- the whole stream, in pieces

  // All of the track at once.
  lemma {:induction false} TrackReads(z: SizeReader, r: Reader, p: seq<byte>, t: Track)
    requires ReadsHex(z) && Along(r, p, t)
    ensures Resume(z, r, p) == Target(Whole(t))
  {
    var u := r.rest + p;
    if t.inside {
      var d, n, later := t.chunks[0], |t.chunks[0]|, t.chunks[1..];
      assert u[..n] == d && u[n..] == t.junk + Encoded(later);
      ReadData(z, n, u, t.body);
      LineReads(z, later, t.junk, t.body + d);
      assert t.body + d + Concat(later) == Whole(t);
    } else {
      LineReads(z, t.chunks, t.junk, t.body);
    }
  }

  lemma {:induction false} LineReads(z: SizeReader, chunks: seq<seq<byte>>, junk: seq<byte>, body: seq<byte>)
    requires ReadsHex(z) && Fits(chunks) && AllBreaks(junk)
    ensures Run(z, -1, junk + Encoded(chunks), body) == Target(body + Concat(chunks))
  {
    SkipBreaks(z, junk, Encoded(chunks), body);
    ChunksReadBack(z, chunks, [], body);
    assert Encoded(chunks) + [] == Encoded(chunks) && CRLF + [] == CRLF;
  }

  // No cut between the pieces spoils the reading.
  ghost predicate Unspoilt(lines: seq<seq<byte>>, pieces: seq<seq<byte>>)
    decreases |pieces|
  {
    |pieces| <= 1 || (!Spoils(lines, |Joined(pieces[1..])|) && Unspoilt(lines, pieces[1..]))
  }

  lemma {:induction false} SameCuts(lines: seq<seq<byte>>, lines': seq<seq<byte>>, pieces: seq<seq<byte>>)
    requires forall m {:trigger Spoils(lines, m)} :: m <= |Joined(pieces)| ==> (Spoils(lines', m) <==> Spoils(lines, m))
    ensures Unspoilt(lines', pieces) <==> Unspoilt(lines, pieces)
    decreases |pieces|
  {
    if |pieces| > 1 {
      SameCuts(lines, lines', pieces[1..]);
    }
  }

  lemma {:induction false} NoCutsLeft(lines: seq<seq<byte>>, pieces: seq<seq<byte>>)
    requires Fits(lines) && |Joined(pieces)| < 3
    ensures Unspoilt(lines, pieces)
    decreases |pieces|
  {
    if |pieces| > 1 {
      NoCutsLeft(lines, pieces[1..]);
      if Spoils(lines, |Joined(pieces[1..])|) {
        SpoilsRange(lines, |Joined(pieces[1..])|);
      }
    }
  }

  lemma {:induction false} TrackJudged(z: SizeReader, r: Reader, p: seq<byte>, ahead: seq<byte>, t: Track)
    requires ReadsHex(z) && Along(r, p + ahead, t)
    ensures Judged(Resume(z, r, p), ahead, Whole(t), Lines(t))
  {
    assert r.rest + (p + ahead) == (r.rest + p) + ahead;
    if t.inside {
      FromData(z, t.chunks, t.junk, r.rest + p, ahead, t.body);
    } else {
      FromLine(z, t.chunks, t.junk, r.rest + p, ahead, t.body);
    }
  }

  // A reader on the track gets home exactly when no cut ahead spoils it.
  lemma {:induction false} HomeIffUnspoilt(z: SizeReader, r: Reader, pieces: seq<seq<byte>>, t: Track)
    requires ReadsHex(z) && pieces != [] && Along(r, Joined(pieces), t)
    ensures Fed(z, r, pieces) == Target(Whole(t)) <==> Unspoilt(Lines(t), pieces)
    decreases |pieces|
  {
    var p, ps, whole := pieces[0], pieces[1..], Whole(t);
    var r' := Resume(z, r, p);
    if ps == [] {
      assert Joined(pieces) == p + Joined([]) == p;
      TrackReads(z, r, p, t);
    } else {
      var ahead := Joined(ps);
      TrackJudged(z, r, p, ahead, t);
      if Spoils(Lines(t), |ahead|) {
        AstrayForever(z, r', ps, whole);
      } else if Home(r', ahead, whole) {
        FedWhenDone(z, r', ps);
        NoCutsLeft(Lines(t), ps);
      } else {
        var t' :| Onward(r', ahead, whole, Lines(t), t');
        HomeIffUnspoilt(z, r', ps, t');
        SameCuts(Lines(t), Lines(t'), ps);
      }
    }
  }

  // ---- by position

  // Byte k of the stream is the LF of the size line of a chunk that is not made of line
  // feeds, or of the last size line.
  predicate SpoiltAt(chunks: seq<seq<byte>>, k: int)
    decreases |chunks|
  {
    if chunks == [] then k == 2
    else
      (k == |Hex(|chunks[0]| % 0x1_0000_0000)| + 1 && !AllLF(chunks[0])) ||
      SpoiltAt(chunks[1..], k - |ChunkBytes(chunks[0])|)
  }

  lemma {:induction false} SpoilsByPosition(chunks: seq<seq<byte>>, k: int)
    ensures SpoiltAt(chunks, k) <==> Spoils(chunks, |Encoded(chunks)| - k)
    decreases |chunks|
  {
    if chunks != [] {
      SpoilsByPosition(chunks[1..], k - |ChunkBytes(chunks[0])|);
    }
  }

  lemma {:induction false} JoinedSplit(pieces: seq<seq<byte>>, i: nat)
    requires i <= |pieces|
    ensures Joined(pieces) == Joined(pieces[..i]) + Joined(pieces[i..])
    decreases |pieces|
  {
    if i == 0 {
      assert pieces[..0] == [] && pieces[0..] == pieces;
    } else {
      JoinedSplit(pieces[1..], i - 1);
      assert pieces[..i][1..] == pieces[1..][..i - 1] && pieces[1..][i - 1..] == pieces[i..];
    }
  }

  lemma {:induction false} UnspoiltByCut(lines: seq<seq<byte>>, pieces: seq<seq<byte>>)
    ensures Unspoilt(lines, pieces) <==> forall i {:trigger pieces[i..]} :: 1 <= i < |pieces| ==>
      !Spoils(lines, |Joined(pieces[i..])|)
    decreases |pieces|
  {
    if |pieces| > 1 {
      var more := pieces[1..];
      UnspoiltByCut(lines, more);
      assert forall i {:trigger more[i..]} :: 1 <= i < |more| ==> more[i..] == pieces[i + 1..];
      assert forall i {:trigger pieces[i..]} :: 2 <= i < |pieces| ==> pieces[i..] == more[i - 1..];
    }
  }

  // However an encoded stream is cut into pieces, the chunks come out whole and exactly
  // the last CR and LF are left if and only if no cut parts the end of the size line of a
  // chunk other than one made of line feeds, or of the last size line.
  lemma {:induction false} StreamInPieces(chunks: seq<seq<byte>>, pieces: seq<seq<byte>>)
    requires Fits(chunks) && Joined(pieces) == Encoded(chunks)
    ensures Fed(SizeOf, Run(SizeOf, -1, [], []), pieces) == Reader(AllRead, 0, Concat(chunks), CRLF) <==>
            forall i {:trigger pieces[..i]} :: 0 <= i < |pieces| ==> !SpoiltAt(chunks, |Joined(pieces[..i])|)
  {
    StrToLLReadsHex();
    var r, t := Reader(MoreExpected, -1, [], []), Track(chunks, [], false, []);
    assert [] + Joined(pieces) == [] + Encoded(chunks);
    assert Whole(t) == Concat(chunks);
    HomeIffUnspoilt(SizeOf, r, pieces, t);
    UnspoiltByCut(chunks, pieces);
    CutsByPosition(chunks, pieces);
  }

  lemma {:induction false} CutsByPosition(chunks: seq<seq<byte>>, pieces: seq<seq<byte>>)
    requires Fits(chunks) && Joined(pieces) == Encoded(chunks)
    ensures (forall i {:trigger pieces[i..]} :: 1 <= i < |pieces| ==> !Spoils(chunks, |Joined(pieces[i..])|)) <==>
            (forall i {:trigger pieces[..i]} :: 0 <= i < |pieces| ==> !SpoiltAt(chunks, |Joined(pieces[..i])|))
  {
    forall i | 0 <= i < |pieces|
      ensures Spoils(chunks, |Joined(pieces[i..])|) <==> SpoiltAt(chunks, |Joined(pieces[..i])|)
    {
      JoinedSplit(pieces, i);
      SpoilsByPosition(chunks, |Joined(pieces[..i])|);
    }
    if Spoils(chunks, |Joined(pieces[0..])|) {
      assert pieces[0..] == pieces;
      SpoilsRange(chunks, |Encoded(chunks)|);
    }
    assert forall i {:trigger pieces[i..]} :: 1 <= i < |pieces| ==>
      (SpoiltAt(chunks, |Joined(pieces[..i])|) <==> Spoils(chunks, |Joined(pieces[i..])|));
  }

  // Cut between the CR and the LF of a size line, the stream of the chunk "a" reads as
  // a line feed and the start of a chunk of ten bytes.
  lemma {:induction false} PartedSizeLineMisreads()
    ensures SpoiltAt([[97]], 2) && Encoded([[97]])[..2] == [49, CR]
    ensures Fed(SizeOf, Run(SizeOf, -1, [], []), [Encoded([[97]])[..2], Encoded([[97]])[2..]])
            == Reader(MoreExpected, 10, [LF], [48, CR, LF, CR, LF])
  {
    StrToLLReadsHex();
    assert Hex(1) == [49] && Hex(10) == [97];
    var a, b: seq<byte> := [49, CR], [LF, 97, CR, LF, 48, CR, LF, CR, LF];
    EncodedExample(a, b);
    FedHalves(SizeOf, a, b);
  }

  lemma {:induction false} EncodedExample(a: seq<byte>, b: seq<byte>)
    requires a == [49, CR] && b == [LF, 97, CR, LF, 48, CR, LF, CR, LF]
    ensures Encoded([[97]])[..2] == a && Encoded([[97]])[2..] == b && SpoiltAt([[97]], 2)
  {
    assert Hex(1) == [49];
    assert ChunkBytes([97]) == [49, CR, LF, 97, CR, LF];
    assert Encoded([[97]]) == ChunkBytes([97]) + Encoded([]) == a + b;
    assert [97][0] != LF;
  }

  lemma {:induction false} FedHalves(z: seq<byte> -> Size, a: seq<byte>, b: seq<byte>)
    requires z([49]) == Size(1) && z([97]) == Size(10)
    requires a == [49, CR] && b == [LF, 97, CR, LF, 48, CR, LF, CR, LF]
    ensures Fed(z, Run(z, -1, [], []), [a, b]) == Reader(MoreExpected, 10, [LF], [48, CR, LF, CR, LF])
  {
    FirstHalf(z, a);
    SecondHalf(z, b);
    var start := Run(z, -1, [], []);
    assert [a, b][1..] == [b] && [b][1..] == [];
    assert [] + a == a && [] + b == b;
    assert Resume(z, start, a) == Run(z, -1, a, []);
    assert Fed(z, start, [a, b]) == Fed(z, Run(z, -1, a, []), [b]);
  }

  lemma {:induction false} FirstHalf(z: seq<byte> -> Size, a: seq<byte>)
    requires z([49]) == Size(1) && a == [49, CR]
    ensures Run(z, -1, a, []) == Reader(MoreExpected, 1, [], [])
  {
    assert a[1..] == [CR] && LineEnd([CR]) == 0;
    assert LineEnd(a) == 1 && LineNext(a) == 2;
    assert [49][1..] == [] && CString([49]) == [49];
    assert a[..1] == [49] && a[2..] == [];
    assert Run(z, -1, a, []) == Run(z, 1, [], []);
  }

  lemma {:induction false} SecondHalf(z: seq<byte> -> Size, b: seq<byte>)
    requires z([97]) == Size(10) && b == [LF, 97, CR, LF, 48, CR, LF, CR, LF]
    ensures Run(z, 1, b, []) == Reader(MoreExpected, 10, [LF], [48, CR, LF, CR, LF])
  {
    var c := b[1..];
    assert b[..1] == [LF] && [] + b[..1] == [LF];
    assert Run(z, 1, b, []) == Run(z, -1, c, [LF]);
    assert LineEnd(c) == 1 && LineNext(c) == 3 && c[..1] == [97] && CString([97]) == [97] &&
      c[3..] == [48, CR, LF, CR, LF];
    assert Run(z, -1, c, [LF]) == Run(z, 10, c[3..], [LF]);
  }
}
