/**
 * Chunked transfer coding: the sender that frames chunks by a hexadecimal size line,
 * and the reader that takes them apart as the bytes arrive.
 */
module Chunked {
  import opened Basics
  import opened Evbuffer

  // ---------------------------------------------------------------- strtoll, base 16

  // A C string ends at the first zero byte.
  function CString(s: seq<byte>): (c: seq<byte>)
    ensures |c| <= |s| && c == s[..|c|] && (|c| < |s| ==> s[|c|] == 0)
    ensures forall i :: 0 <= i < |c| ==> c[i] != 0
  {
    if s == [] || s[0] == 0 then [] else [s[0]] + CString(s[1..])
  }

  predicate IsSpace(b: byte) {
    b == 32 || 9 <= b <= 13
  }

  predicate IsHex(b: byte) {
    48 <= b <= 57 || 65 <= b <= 70 || 97 <= b <= 102
  }

  function HexValue(b: byte): (v: nat)
    requires IsHex(b)
    ensures v < 16
  {
    if b <= 57 then b - 48 else if b <= 70 then b - 55 else b - 87
  }

  // How many hexadecimal digits s starts with, and their value after acc.
  function DigitCount(s: seq<byte>): (n: nat)
    ensures n <= |s|
  {
    if s == [] || !IsHex(s[0]) then 0 else 1 + DigitCount(s[1..])
  }

  function DigitValue(s: seq<byte>, acc: nat): nat
    decreases |s|
  {
    if s == [] || !IsHex(s[0]) then acc else DigitValue(s[1..], 16 * acc + HexValue(s[0]))
  }

  function SpaceCount(s: seq<byte>): (n: nat)
    ensures n <= |s|
  {
    if s == [] || !IsSpace(s[0]) then 0 else 1 + SpaceCount(s[1..])
  }

  datatype Parsed = Parsed(value: int, end: nat)

  const LLONG_MAX: int := 0x7fff_ffff_ffff_ffff

  // Spaces, a sign, a prefix 0x before digits, digits; without digits nothing is read.
  function StrToLL(c: seq<byte>): (r: Parsed)
    ensures r.end <= |c|
  {
    var i := SpaceCount(c);
    var negative := i < |c| && c[i] == 45;
    var j := if i < |c| && (c[i] == 45 || c[i] == 43) then i + 1 else i;
    var k := if j + 2 < |c| && c[j] == 48 && (c[j + 1] == 120 || c[j + 1] == 88) && IsHex(c[j + 2]) then j + 2 else j;
    var n := DigitCount(c[k..]);
    if n == 0 then Parsed(0, 0)
    else
      var v := DigitValue(c[k..], 0);
      var value :=
        if negative then (if v > LLONG_MAX + 1 then -LLONG_MAX - 1 else 0 - v)
        else if v > LLONG_MAX then LLONG_MAX
        else v;
      Parsed(value, k + n)
  }

  // ---------------------------------------------------------------- the reader

  datatype Status = MoreExpected | AllRead | Corrupted

  // Where the reader stands: its answer, ntoread, the body so far and the bytes left.
  datatype Reader = Reader(status: Status, ntoread: int, body: seq<byte>, rest: seq<byte>)

  // What a size line says; None when it is not one.
  datatype Size = NotASize | Size(n: nat)

  function SizeOf(c: seq<byte>): Size {
    var p := StrToLL(c);
    if (p.end < |c| && c[p.end] != 32) || p.value < 0 then NotASize else Size(p.value)
  }

  // evhttp_handle_chunked_read, as a function of its buffers and of how a size line is read.
  function Run(z: seq<byte> -> Size, n: int, input: seq<byte>, body: seq<byte>): Reader
    decreases |input|, n >= 0
  {
    if input == [] then Reader(MoreExpected, n, body, [])
    else if n < 0 then
      if LineEnd(input) == |input| then Reader(MoreExpected, n, body, input)
      else
        var c, rest := CString(input[..LineEnd(input)]), input[LineNext(input)..];
        if c == [] then Run(z, n, rest, body)
        else match z(c)
          case NotASize => Reader(Corrupted, n, body, rest)
          case Size(m) => if m == 0 then Reader(AllRead, 0, body, rest) else Run(z, m, rest, body)
    else if |input| < n then Reader(MoreExpected, n, body, input)
    else Run(z, -1, input[n..], body + input[..n])
  }

  class Request {
    var ntoread: int
    const input: Buffer
    const chunkCb: bool              // whether there is a callback for chunks
    ghost var delivered: seq<byte>   // what the callback has been shown

    constructor (input: Buffer, chunkCb: bool)
      ensures this.input == input && this.chunkCb == chunkCb && ntoread == -1 && delivered == []
    {
      this.input := input;
      this.chunkCb := chunkCb;
      ntoread := -1;
      delivered := [];
    }

    // The body so far: what the callback has been shown, and what is in the buffer.
    ghost function Body(): seq<byte>
      requires input.Valid()
      reads this, input, input.orig
    {
      delivered + input.Contents()
    }

    method HandleChunkedRead(buf: Buffer) returns (status: Status)
      requires buf.Valid() && input.Valid() && buf != input && buf.orig != input.orig
      modifies this, buf, input, input.orig
      ensures buf.Valid() && input.Valid() && buf.orig == old(buf.orig) && buf.orig != input.orig
      ensures Reader(status, ntoread, Body(), buf.Contents()) ==
        Run(SizeOf, old(ntoread), old(buf.Contents()), old(Body()))
      ensures chunkCb && old(input.Contents()) == [] ==> input.Contents() == []
      ensures !chunkCb ==> delivered == old(delivered)
    {
      while buf.off > 0
        invariant buf.Valid() && input.Valid() && buf.orig == old(buf.orig) && buf.orig != input.orig
        invariant input.orig == old(input.orig) || fresh(input.orig)
        invariant Run(SizeOf, old(ntoread), old(buf.Contents()), old(Body())) ==
          Run(SizeOf, ntoread, buf.Contents(), Body())
        invariant chunkCb && old(input.Contents()) == [] ==> input.Contents() == []
        invariant !chunkCb ==> delivered == old(delivered)
        decreases buf.off, ntoread >= 0
      {
        var done;
        done, status := Turn(buf);
        if done {
          return;
        }
      }
      return MoreExpected;
    }

    // One turn of the loop.
    method Turn(buf: Buffer) returns (done: bool, status: Status)
      requires buf.Valid() && input.Valid() && buf != input && buf.orig != input.orig && buf.off > 0
      modifies this, buf, input, input.orig
      ensures buf.Valid() && input.Valid() && buf.orig == old(buf.orig) && buf.orig != input.orig
      ensures input.orig == old(input.orig) || fresh(input.orig)
      ensures done ==>
        Reader(status, ntoread, Body(), buf.Contents()) ==
        Run(SizeOf, old(ntoread), old(buf.Contents()), old(Body()))
      ensures !done ==>
        Run(SizeOf, ntoread, buf.Contents(), Body()) ==
        Run(SizeOf, old(ntoread), old(buf.Contents()), old(Body()))
      ensures chunkCb && old(input.Contents()) == [] ==> input.Contents() == []
      ensures !chunkCb ==> delivered == old(delivered)
      ensures !done ==> buf.off < old(buf.off) || (buf.off == old(buf.off) && ntoread < 0 <= old(ntoread))
    {
      if ntoread < 0 {
        done, status := TakeSize(buf);
        return;
      }
      if buf.off < ntoread {
        return true, MoreExpected;
      }
      TakeChunk(buf);
      return false, MoreExpected;
    }

    // A turn in which the size of the next chunk is read.
    method TakeSize(buf: Buffer) returns (done: bool, status: Status)
      requires buf.Valid() && input.Valid() && buf != input && buf.orig != input.orig && buf.off > 0 && ntoread < 0
      modifies this`ntoread, buf
      ensures buf.Valid() && buf.orig == old(buf.orig)
      ensures done ==>
        Reader(status, ntoread, Body(), buf.Contents()) ==
        Run(SizeOf, old(ntoread), old(buf.Contents()), Body())
      ensures !done ==>
        Run(SizeOf, ntoread, buf.Contents(), Body()) == Run(SizeOf, old(ntoread), old(buf.Contents()), Body())
      ensures !done ==> buf.off < old(buf.off)
    {
      var p := ReadSize(buf);
      match p {
        case NoLine =>
          return true, MoreExpected;
        case Blank =>
          return false, MoreExpected;
        case Bad =>
          return true, Corrupted;
        case Length(n) =>
          ntoread := n;
          if ntoread == 0 {
            return true, AllRead;
          }
          return false, MoreExpected;
      }
    }

    method TakeChunk(buf: Buffer)
      requires buf.Valid() && input.Valid() && buf != input && buf.orig != input.orig && 0 <= ntoread <= buf.off
      modifies this, buf, input, input.orig
      ensures buf.Valid() && input.Valid() && buf.orig == old(buf.orig) && buf.orig != input.orig && ntoread == -1
      ensures input.orig == old(input.orig) || fresh(input.orig)
      ensures buf.Contents() == old(buf.Contents())[old(ntoread)..]
      ensures Body() == old(Body()) + old(buf.Contents())[..old(ntoread)]
      ensures if chunkCb then input.Contents() == [] else delivered == old(delivered)
    {
      ghost var shown, had, data := delivered, input.Contents(), buf.Contents()[..ntoread];
      MoveChunk(buf);
      assert Body() == shown + (had + data) == shown + had + data;
      if chunkCb {
        CallChunkCb();
      }
    }

    method MoveChunk(buf: Buffer)
      requires buf.Valid() && input.Valid() && buf != input && buf.orig != input.orig && 0 <= ntoread <= buf.off
      modifies this`ntoread, buf, input, input.orig
      ensures buf.Valid() && input.Valid() && buf.orig == old(buf.orig) && buf.orig != input.orig && ntoread == -1
      ensures input.orig == old(input.orig) || fresh(input.orig)
      ensures buf.Contents() == old(buf.Contents())[old(ntoread)..]
      ensures input.Contents() == old(input.Contents()) + old(buf.Contents())[..old(ntoread)]
    {
      var data := buf.orig[buf.start..buf.start + ntoread];
      assert data == buf.Contents()[..ntoread];
      var ok := input.Add(data, true);
      buf.Drain(ntoread);
      ntoread := -1;
    }

    // The callback is shown the buffer, which is then drained.
    method CallChunkCb()
      requires input.Valid()
      modifies this`delivered, input
      ensures input.Valid() && input.orig == old(input.orig) && Body() == old(Body()) && input.Contents() == []
    {
      delivered := delivered + input.Contents();
      input.Drain(input.off);
    }
  }

  datatype Line = NoLine | Blank | Bad | Length(n: nat)

  // A line off the buffer, and what it says.
  method ReadSize(buf: Buffer) returns (p: Line)
    requires buf.Valid()
    modifies buf
    ensures buf.Valid() && buf.orig == old(buf.orig)
    ensures var s := old(buf.Contents());
            if LineEnd(s) == |s| then p == NoLine && buf.Contents() == s
            else p == LineSays(CString(s[..LineEnd(s)])) && buf.Contents() == s[LineNext(s)..]
  {
    var found, line := buf.ReadLine();
    if !found {
      return NoLine;
    }
    p := LineSays(CString(line));
  }

  function LineSays(c: seq<byte>): Line {
    if c == [] then Blank
    else match SizeOf(c)
      case NotASize => Bad
      case Size(n) => Length(n)
  }

  // ---------------------------------------------------------------- the sender

  // "%x"
  function Hex(n: nat): (s: seq<byte>)
    ensures |s| > 0 && forall i :: 0 <= i < |s| ==> IsHex(s[i])
  {
    if n < 16 then [HexDigit(n)] else Hex(n / 16) + [HexDigit(n % 16)]
  }

  function HexDigit(d: nat): (b: byte)
    requires d < 16
    ensures IsHex(b) && HexValue(b) == d
  {
    if d < 10 then 48 + d else 87 + d
  }

  const CRLF: seq<byte> := [CR, LF]
  const LAST: seq<byte> := [48, CR, LF, CR, LF]

  // What evhttp_send_reply_chunk writes.
  function ChunkBytes(data: seq<byte>): seq<byte> {
    Hex(|data| % 0x1_0000_0000) + CRLF + data + CRLF
  }

  // The chunks and what evhttp_send_reply_end writes.
  function Encoded(chunks: seq<seq<byte>>): seq<byte> {
    if chunks == [] then LAST else ChunkBytes(chunks[0]) + Encoded(chunks[1..])
  }

  function Concat(chunks: seq<seq<byte>>): seq<byte> {
    if chunks == [] then [] else chunks[0] + Concat(chunks[1..])
  }

  lemma {:induction false} DigitsOf(s: seq<byte>, t: seq<byte>, acc: nat)
    requires forall i :: 0 <= i < |s| ==> IsHex(s[i])
    requires t == [] || !IsHex(t[0])
    ensures DigitCount(s + t) == |s| && DigitValue(s + t, acc) == DigitValue(s, acc)
    decreases |s|
  {
    if s == [] {
      assert s + t == t;
    } else {
      assert (s + t)[1..] == s[1..] + t;
      DigitsOf(s[1..], t, 16 * acc + HexValue(s[0]));
    }
  }

  lemma {:induction false} DigitValueAppend(s: seq<byte>, b: byte, acc: nat)
    requires IsHex(b) && forall i :: 0 <= i < |s| ==> IsHex(s[i])
    ensures DigitValue(s + [b], acc) == 16 * DigitValue(s, acc) + HexValue(b)
    decreases |s|
  {
    if s == [] {
      assert s + [b] == [b];
      assert DigitValue([b], acc) == DigitValue([b][1..], 16 * acc + HexValue(b));
    } else {
      assert (s + [b])[1..] == s[1..] + [b];
      DigitValueAppend(s[1..], b, 16 * acc + HexValue(s[0]));
    }
  }

  lemma {:induction false} HexReads(n: nat)
    ensures DigitValue(Hex(n), 0) == n
  {
    if n < 16 {
      assert DigitValue(Hex(n), 0) == DigitValue(Hex(n)[1..], 16 * 0 + HexValue(Hex(n)[0]));
    } else {
      HexReads(n / 16);
      DigitValueAppend(Hex(n / 16), HexDigit(n % 16), 0);
    }
  }

  lemma {:induction false} SizeOfHex(n: nat)
    requires n <= LLONG_MAX
    ensures SizeOf(Hex(n)) == Size(n)
  {
    var s := Hex(n);
    assert IsHex(s[0]);
    assert |s| > 1 ==> IsHex(s[1]);
    HexReads(n);
    DigitsOf(s, [], 0);
    assert s + [] == s && s[0..] == s;
  }

  // The digits.
  lemma {:induction false} HexDigits(b: byte)
    ensures 48 <= b <= 57 ==> IsHex(b) && HexValue(b) == b - 48
    ensures 65 <= b <= 70 ==> IsHex(b) && HexValue(b) == b - 65 + 10
    ensures 97 <= b <= 102 ==> IsHex(b) && HexValue(b) == b - 97 + 10
    ensures b < 48 || 57 < b < 65 || 70 < b < 97 || 102 < b ==> !IsHex(b)
  {
  }

  // A number is read up to the first byte that is not a digit, behind a sign or 0x as without.
  lemma {:induction false} NumberReads(d: seq<byte>, t: seq<byte>)
    requires d != [] && forall i :: 0 <= i < |d| ==> IsHex(d[i])
    requires t == [] || (!IsHex(t[0]) && t[0] != 120 && t[0] != 88)
    ensures var v := DigitValue(d, 0);
      var capped := if v > 0x7fff_ffff_ffff_ffff then 0x7fff_ffff_ffff_ffff else v;
      StrToLL(d + t) == Parsed(capped, |d|) && StrToLL([43] + d + t) == Parsed(capped, |d| + 1) &&
      StrToLL([48, 120] + d + t) == Parsed(capped, |d| + 2) &&
      StrToLL([45] + d + t) ==
        Parsed(if v > 0x8000_0000_0000_0000 then -0x8000_0000_0000_0000 else 0 - v, |d| + 1)
  {
    DigitsOf(d, t, 0);
    BareNumber(d, t);
    SignedNumber(45, d, t);
    SignedNumber(43, d, t);
    PrefixedNumber(d, t);
  }

  lemma {:induction false} BareNumber(d: seq<byte>, t: seq<byte>)
    requires d != [] && forall i :: 0 <= i < |d| ==> IsHex(d[i])
    requires t == [] || (!IsHex(t[0]) && t[0] != 120 && t[0] != 88)
    requires DigitCount(d + t) == |d| && DigitValue(d + t, 0) == DigitValue(d, 0)
    ensures var v := DigitValue(d, 0);
      StrToLL(d + t) == Parsed(if v > LLONG_MAX then LLONG_MAX else v, |d|)
  {
    var c := d + t;
    assert c[0] == d[0] && c[0..] == c;
    assert |c| > 1 ==> c[1] == if |d| > 1 then d[1] else t[0];
  }

  lemma {:induction false} SignedNumber(sign: byte, d: seq<byte>, t: seq<byte>)
    requires d != [] && forall i :: 0 <= i < |d| ==> IsHex(d[i])
    requires t == [] || (!IsHex(t[0]) && t[0] != 120 && t[0] != 88)
    requires DigitCount(d + t) == |d| && DigitValue(d + t, 0) == DigitValue(d, 0) && (sign == 43 || sign == 45)
    ensures var v := DigitValue(d, 0);
      StrToLL([sign] + d + t) ==
      Parsed(if sign == 45 then (if v > LLONG_MAX + 1 then -LLONG_MAX - 1 else 0 - v)
             else if v > LLONG_MAX then LLONG_MAX else v, |d| + 1)
  {
    var c := [sign] + d + t;
    assert c[0] == sign && c[1] == d[0] && c[1..] == d + t;
    assert |c| > 2 ==> c[2] == if |d| > 1 then d[1] else t[0];
  }

  lemma {:induction false} PrefixedNumber(d: seq<byte>, t: seq<byte>)
    requires d != [] && forall i :: 0 <= i < |d| ==> IsHex(d[i])
    requires DigitCount(d + t) == |d| && DigitValue(d + t, 0) == DigitValue(d, 0)
    ensures var v := DigitValue(d, 0);
      StrToLL([48, 120] + d + t) == Parsed(if v > LLONG_MAX then LLONG_MAX else v, |d| + 2)
  {
    var c := [48, 120] + d + t;
    assert c[0] == 48 && c[1] == 120 && c[2] == d[0] && c[2..] == d + t;
  }

  // A size is a number with nothing or a space behind it; anything else behind it, or a
  // negative number, is none.
  lemma {:induction false} SizeReads(d: seq<byte>, t: seq<byte>)
    requires d != [] && forall i :: 0 <= i < |d| ==> IsHex(d[i])
    requires t == [] || (!IsHex(t[0]) && t[0] != 120 && t[0] != 88)
    ensures t == [] || t[0] == 32 ==>
      var v := DigitValue(d, 0);
      SizeOf(d + t) == Size(if v > 0x7fff_ffff_ffff_ffff then 0x7fff_ffff_ffff_ffff else v)
    ensures t != [] && t[0] != 32 ==> SizeOf(d + t) == NotASize
    ensures DigitValue(d, 0) > 0 ==> SizeOf([45] + d + t) == NotASize
  {
    NumberReads(d, t);
    assert t != [] ==> (d + t)[|d|] == t[0];
  }

  // A size line is read as it was written.
  ghost predicate ReadsHex(z: seq<byte> -> Size) {
    forall n: nat {:trigger Hex(n)} :: n <= LLONG_MAX ==> z(Hex(n)) == Size(n)
  }

  lemma {:induction false} StrToLLReadsHex()
    ensures ReadsHex(SizeOf)
  {
    forall n: nat | n <= LLONG_MAX
      ensures SizeOf(Hex(n)) == Size(n)
    {
      SizeOfHex(n);
    }
  }

  // The size line in front of anything.
  lemma {:induction false} SizeLine(n: nat, rest: seq<byte>)
    ensures var s := Hex(n) + CRLF + rest;
            LineEnd(s) == |Hex(n)| && LineNext(s) == |Hex(n)| + 2 && s[..LineEnd(s)] == Hex(n) &&
              CString(s[..LineEnd(s)]) == Hex(n) && s[LineNext(s)..] == rest
  {
    var h := Hex(n);
    var s := h + CRLF + rest;
    assert forall i :: 0 <= i < |h| ==> s[i] == h[i];
    assert s[|h|] == CR && s[|h| + 1] == LF;
    assert s[..|h|] == h && s[|h| + 2..] == rest;
    assert h[..|h|] == h;
  }

  // Reading one chunk, whatever follows it.
  lemma {:induction false} ReadChunk(z: seq<byte> -> Size, data: seq<byte>, rest: seq<byte>, body: seq<byte>)
    requires ReadsHex(z)
    requires 0 < |data| < 0x1_0000_0000
    ensures Run(z, -1, ChunkBytes(data) + rest, body) == Run(z, -1, rest, body + data)
  {
    var n := |data|;
    var tail := data + CRLF + rest;
    var s := ChunkBytes(data) + rest;
    assert s == Hex(n) + CRLF + tail;
    ReadSizeLine(z, n, tail, body);
    assert tail[..n] == data && tail[n..] == CRLF + rest;
    SkipCrLf(z, rest, body + data);
  }

  lemma {:induction false} ReadSizeLine(z: seq<byte> -> Size, n: nat, tail: seq<byte>, body: seq<byte>)
    requires ReadsHex(z)
    requires 0 < n <= LLONG_MAX
    ensures Run(z, -1, Hex(n) + CRLF + tail, body) == Run(z, n, tail, body)
  {
    SizeLine(n, tail);
    assert z(Hex(n)) == Size(n);
  }

  lemma {:induction false} SkipCrLf(z: seq<byte> -> Size, rest: seq<byte>, body: seq<byte>)
    ensures Run(z, -1, CRLF + rest, body) == Run(z, -1, rest, body)
  {
    var s := CRLF + rest;
    assert s[0] == CR && s[1] == LF && s[2..] == rest && s[..0] == [];
    assert LineEnd(s) == 0 && LineNext(s) == 2;
  }

  // What the reader does with a line that has not ended yet, or is empty, or says something.
  lemma {:induction false} UnendedLine(z: seq<byte> -> Size, n: int, line: seq<byte>, body: seq<byte>)
    requires n < 0 && 13 !in line && 10 !in line
    ensures Run(z, n, line, body) == Reader(MoreExpected, n, body, line)
  {
    assert LineEnd(line) == |line|;
  }

  lemma {:induction false} LineRules(z: seq<byte> -> Size, n: int, line: seq<byte>, rest: seq<byte>, body: seq<byte>)
    requires n < 0 && 13 !in line && 10 !in line && 0 !in line
    ensures Run(z, n, line + [13] + ([10] + rest), body) ==
      if line == [] then Run(z, n, rest, body)
      else
        match z(line)
        case NotASize => Reader(Corrupted, n, body, rest)
        case Size(m) => if m == 0 then Reader(AllRead, 0, body, rest) else Run(z, m, rest, body)
  {
    var s := line + [13] + ([10] + rest);
    LineParts(line, 13, [10] + rest);
    Unbroken(line);
    assert ([10] + rest)[1..] == rest && s != [] && LineEnd(s) < |s|;
  }

  lemma {:induction false} Unbroken(line: seq<byte>)
    requires 0 !in line
    ensures CString(line) == line
  {
    if line != [] {
      assert line[0] in line;
      Unbroken(line[1..]);
    }
  }

  lemma {:induction false} DataRules(z: seq<byte> -> Size, n: nat, data: seq<byte>, rest: seq<byte>, body: seq<byte>)
    ensures |data| < n ==> Run(z, n, data, body) == Reader(MoreExpected, n, body, data)
    ensures |data| == n && data + rest != [] ==> Run(z, n, data + rest, body) == Run(z, -1, rest, body + data)
  {
    assert (data + rest)[..|data|] == data && (data + rest)[|data|..] == rest;
  }

  // "4", CRLF, four bytes, CRLF, "0", CRLF, CRLF.
  lemma {:induction false} WireExample(data: seq<byte>)
    requires |data| == 4
    ensures Run(SizeOf, -1, [52, 13, 10] + data + [13, 10, 48, 13, 10, 13, 10], []) ==
      Reader(AllRead, 0, data, [13, 10])
  {
    WireBytes(data);
    StrToLLReadsHex();
    ChunksReadBack(SizeOf, [data], [], []);
    assert [data][1..] == [] && Concat([data]) == data + Concat([]) && Concat([]) == [];
    assert Encoded([data]) + [] == Encoded([data]);
    assert CRLF + [] == [13, 10] && [] + (data + []) == data;
  }

  lemma {:induction false} WireBytes(data: seq<byte>)
    requires |data| == 4
    ensures Encoded([data]) == [52, 13, 10] + data + [13, 10, 48, 13, 10, 13, 10]
  {
    assert [data][1..] == [] && Encoded([]) == LAST;
    assert Encoded([data]) == ChunkBytes(data) + LAST;
    assert Hex(4) == [52];
    assert [52] + CRLF == [52, 13, 10] && CRLF + LAST == [13, 10, 48, 13, 10, 13, 10];
    assert ChunkBytes(data) + LAST == ([52] + CRLF) + data + (CRLF + LAST);
  }

  // Any list of chunks reads back as their concatenation, up to the blank line at the end.
  lemma {:induction false} ChunksReadBack(z: seq<byte> -> Size, chunks: seq<seq<byte>>, rest: seq<byte>,
      body: seq<byte>)
    requires ReadsHex(z)
    requires forall i :: 0 <= i < |chunks| ==> 0 < |chunks[i]| < 0x1_0000_0000
    ensures Run(z, -1, Encoded(chunks) + rest, body) == Reader(AllRead, 0, body + Concat(chunks), CRLF + rest)
    decreases |chunks|
  {
    if chunks == [] {
      ReadLast(z, rest, body);
      assert body + Concat(chunks) == body;
    } else {
      var more := Encoded(chunks[1..]) + rest;
      assert Encoded(chunks) + rest == ChunkBytes(chunks[0]) + more;
      ReadChunk(z, chunks[0], more, body);
      ChunksReadBack(z, chunks[1..], rest, body + chunks[0]);
      assert body + chunks[0] + Concat(chunks[1..]) == body + Concat(chunks);
    }
  }

  lemma {:induction false} ReadLast(z: seq<byte> -> Size, rest: seq<byte>, body: seq<byte>)
    requires ReadsHex(z)
    ensures Run(z, -1, LAST + rest, body) == Reader(AllRead, 0, body, CRLF + rest)
  {
    assert Hex(0) == [48];
    assert LAST + rest == Hex(0) + CRLF + (CRLF + rest);
    SizeLine(0, CRLF + rest);
    assert z(Hex(0)) == Size(0);
  }

  // ---------------------------------------------------------------- arrival in pieces

  // The reader called again with more bytes behind those it left.
  function Resume(z: seq<byte> -> Size, r: Reader, more: seq<byte>): Reader {
    if r.status.MoreExpected? then Run(z, r.ntoread, r.rest + more, r.body) else r.(rest := r.rest + more)
  }

  predicate LineBreak(b: byte) {
    b == CR || b == LF
  }

  // The cut between a and b parts the two bytes that end a line read last from a.
  predicate PartsLineEnd(a: seq<byte>, b: seq<byte>) {
    LineEnd(a) + 1 == |a| && b != [] && LineBreak(b[0]) && b[0] != a[LineEnd(a)]
  }

  // ... and that line, in a reader that stands at n, is a size line.
  predicate PartsSizeLine(z: seq<byte> -> Size, n: int, a: seq<byte>, b: seq<byte>)
    decreases |a|, n >= 0
  {
    a != [] &&
    if n < 0 then
      LineEnd(a) < |a| &&
      var c, rest := CString(a[..LineEnd(a)]), a[LineNext(a)..];
      if c == [] then PartsSizeLine(z, n, rest, b)
      else PartsLineEnd(a, b) || (z(c).Size? && z(c).n > 0 && PartsSizeLine(z, z(c).n, rest, b))
    else
      |a| >= n && PartsSizeLine(z, -1, a[n..], b)
  }

  lemma {:induction false} LineEndOfPrefix(a: seq<byte>, b: seq<byte>)
    requires LineEnd(a) < |a|
    ensures LineEnd(a + b) == LineEnd(a) && (a + b)[..LineEnd(a)] == a[..LineEnd(a)]
    ensures LineNext(a + b) == if PartsLineEnd(a, b) then |a| + 1 else LineNext(a)
  {
    var e, s := LineEnd(a), a + b;
    assert forall i :: 0 <= i < |a| ==> s[i] == a[i];
    assert e + 1 == |a| && b != [] ==> s[e + 1] == b[0];
    assert s[..e] == a[..e];
  }

  // Where lines are skipped, a line break at the front makes no difference.
  lemma {:induction false} SkipOne(z: seq<byte> -> Size, n: int, s: seq<byte>, body: seq<byte>)
    requires n < 0 && s != [] && LineBreak(s[0])
    ensures Run(z, n, s, body) == Run(z, n, s[1..], body)
    decreases |s|
  {
    assert LineEnd(s) == 0 && s[..0] == [];
    if LineNext(s) == 2 {
      assert s[1..][0] == s[1] && s[1..][1..] == s[2..];
      SkipOne(z, n, s[1..], body);
    }
  }

  // A reader that stops between a and b and goes on later ends where one that gets
  // both at once does, unless the cut parts the end of a size line.
  lemma {:induction false} CutIsHarmless(z: seq<byte> -> Size, n: int, a: seq<byte>, b: seq<byte>, body: seq<byte>)
    requires !PartsSizeLine(z, n, a, b)
    ensures Run(z, n, a + b, body) == Resume(z, Run(z, n, a, body), b)
    decreases |a|, n >= 0
  {
    if a == [] {
      assert a + b == b && [] + b == b;
    } else if n < 0 {
      if LineEnd(a) < |a| {
        LineEndOfPrefix(a, b);
        if PartsLineEnd(a, b) {
          CutInBlankLine(z, n, a, b, body);
        } else {
          CutAfterLine(z, n, a, b, body);
        }
      }
    } else if |a| >= n {
      assert (a + b)[..n] == a[..n] && (a + b)[n..] == a[n..] + b;
      CutIsHarmless(z, -1, a[n..], b, body + a[..n]);
    }
  }

  lemma {:induction false} CutInBlankLine(z: seq<byte> -> Size, n: int, a: seq<byte>, b: seq<byte>, body: seq<byte>)
    requires n < 0 && PartsLineEnd(a, b) && !PartsSizeLine(z, n, a, b)
    requires LineEnd(a + b) == LineEnd(a) && (a + b)[..LineEnd(a)] == a[..LineEnd(a)] && LineNext(a + b) == |a| + 1
    ensures Run(z, n, a + b, body) == Resume(z, Run(z, n, a, body), b)
  {
    var rest := a[LineNext(a)..];
    assert rest == [] && (a + b)[|a| + 1..] == b[1..] && rest + b == b;
    assert CString(a[..LineEnd(a)]) == [];
    assert Run(z, n, a, body) == Run(z, n, rest, body);
    SkipOne(z, n, b, body);
  }

  lemma {:induction false} CutAfterLine(z: seq<byte> -> Size, n: int, a: seq<byte>, b: seq<byte>, body: seq<byte>)
    requires n < 0 && LineEnd(a) < |a| && !PartsLineEnd(a, b) && !PartsSizeLine(z, n, a, b)
    requires LineEnd(a + b) == LineEnd(a) && (a + b)[..LineEnd(a)] == a[..LineEnd(a)] && LineNext(a + b) == LineNext(a)
    ensures Run(z, n, a + b, body) == Resume(z, Run(z, n, a, body), b)
    decreases |a|, n >= 0, 0
  {
    var c, rest := CString(a[..LineEnd(a)]), a[LineNext(a)..];
    assert (a + b)[LineNext(a)..] == rest + b;
    if c == [] {
      CutIsHarmless(z, n, rest, b, body);
    } else if z(c).Size? && z(c).n > 0 {
      CutIsHarmless(z, z(c).n, rest, b, body);
    }
  }

  // ---- any number of pieces

  function Joined(pieces: seq<seq<byte>>): seq<byte> {
    if pieces == [] then [] else pieces[0] + Joined(pieces[1..])
  }

  // The reader called once for each piece.
  function Fed(z: seq<byte> -> Size, r: Reader, pieces: seq<seq<byte>>): Reader
    decreases |pieces|
  {
    if pieces == [] then r else Fed(z, Resume(z, r, pieces[0]), pieces[1..])
  }

  // No cut after a, between the pieces, parts the end of a size line.
  ghost predicate SafelyCut(z: seq<byte> -> Size, n: int, a: seq<byte>, pieces: seq<seq<byte>>)
    decreases |pieces|
  {
    pieces == [] || (!PartsSizeLine(z, n, a, Joined(pieces)) && SafelyCut(z, n, a + pieces[0], pieces[1..]))
  }

  lemma {:induction false} PartsOnFirstByte(z: seq<byte> -> Size, n: int, a: seq<byte>, b: seq<byte>, c: seq<byte>)
    requires PartsSizeLine(z, n, a, b)
    ensures PartsSizeLine(z, n, a, b + c)
    decreases |a|, n >= 0
  {
    if n >= 0 {
      PartsOnFirstByte(z, -1, a[n..], b, c);
    } else {
      var line, rest := CString(a[..LineEnd(a)]), a[LineNext(a)..];
      if line == [] {
        PartsOnFirstByte(z, n, rest, b, c);
      } else if !PartsLineEnd(a, b) {
        PartsOnFirstByte(z, z(line).n, rest, b, c);
      }
    }
  }

  // A reader run, as a function of the bytes it gets, goes on from cut to cut.
  ghost predicate Coherent(z: seq<byte> -> Size, run: seq<byte> -> Reader, a: seq<byte>, pieces: seq<seq<byte>>)
    decreases |pieces|
  {
    pieces == [] || (run(a + pieces[0]) == Resume(z, run(a), pieces[0]) && Coherent(z, run, a + pieces[0], pieces[1..]))
  }

  lemma {:induction false} CoherentFeeding(z: seq<byte> -> Size, run: seq<byte> -> Reader, a: seq<byte>,
      pieces: seq<seq<byte>>)
    requires Coherent(z, run, a, pieces)
    ensures Fed(z, run(a), pieces) == run(a + Joined(pieces))
    decreases |pieces|
  {
    if pieces == [] {
      assert a + Joined(pieces) == a;
    } else {
      CoherentFeeding(z, run, a + pieces[0], pieces[1..]);
      assert a + pieces[0] + Joined(pieces[1..]) == a + Joined(pieces);
    }
  }

  lemma {:induction false} SafeCutsCohere(z: seq<byte> -> Size, n: int, body: seq<byte>, run: seq<byte> -> Reader,
      a: seq<byte>, pieces: seq<seq<byte>>)
    requires SafelyCut(z, n, a, pieces) && forall s {:trigger Run(z, n, s, body)} :: run(s) == Run(z, n, s, body)
    ensures Coherent(z, run, a, pieces)
    decreases |pieces|
  {
    if pieces != [] {
      FirstCutIsSafe(z, n, a, pieces);
      CutIsHarmless(z, n, a, pieces[0], body);
      SafeCutsCohere(z, n, body, run, a + pieces[0], pieces[1..]);
    }
  }

  // However the bytes arrive, if every cut is safe the reader ends where it would have
  // with all of them at once.
  lemma {:induction false} PiecesAreHarmless(z: seq<byte> -> Size, n: int, a: seq<byte>, pieces: seq<seq<byte>>,
      body: seq<byte>)
    requires SafelyCut(z, n, a, pieces)
    ensures Fed(z, Run(z, n, a, body), pieces) == Run(z, n, a + Joined(pieces), body)
  {
    var run := (s: seq<byte>) => Run(z, n, s, body);
    SafeCutsCohere(z, n, body, run, a, pieces);
    CoherentFeeding(z, run, a, pieces);
  }

  lemma {:induction false} FirstCutIsSafe(z: seq<byte> -> Size, n: int, a: seq<byte>, pieces: seq<seq<byte>>)
    requires SafelyCut(z, n, a, pieces) && pieces != []
    ensures !PartsSizeLine(z, n, a, pieces[0])
  {
    if PartsSizeLine(z, n, a, pieces[0]) {
      PartsOnFirstByte(z, n, a, pieces[0], Joined(pieces[1..]));
    }
  }

  // ---- the sender's methods

  // evhttp_send_reply_chunk
  method SendReplyChunk(output: Buffer, data: Buffer, chunked: bool)
    requires output.Valid() && data.Valid() && output != data && output.orig != data.orig
    modifies output, output.orig, data, data.orig
    ensures output.Valid() && data.Valid() && data.Contents() == []
    ensures output.Contents() == old(output.Contents()) +
      if chunked then ChunkBytes(old(data.Contents())) else old(data.Contents())
  {
    if chunked {
      Framed(output.Contents(), Hex(data.off % 0x1_0000_0000), data.Contents());
      SendSize(output, data.off);
      var ok := output.AddBuffer(data, true);
      ok := output.Add(CRLF, true);
    } else {
      var ok := output.AddBuffer(data, true);
    }
  }

  method SendSize(output: Buffer, n: nat)
    requires output.Valid()
    modifies output, output.orig
    ensures output.Valid() && (output.orig == old(output.orig) || fresh(output.orig))
    ensures output.Contents() == old(output.Contents()) + (Hex(n % 0x1_0000_0000) + CRLF)
  {
    var ok := output.Add(Hex(n % 0x1_0000_0000) + CRLF, true);
  }

  lemma {:induction false} Framed(was: seq<byte>, h: seq<byte>, d: seq<byte>)
    ensures was + (h + CRLF) + d + CRLF == was + (h + CRLF + d + CRLF)
  {
  }

  // evhttp_send_reply_end; pending says whether writing is under way. The request is done
  // with at once only if there is nothing left to write.
  method SendReplyEnd(output: Buffer, chunked: bool, pending: bool) returns (done: bool)
    requires output.Valid()
    modifies output, output.orig
    ensures output.Valid() && output.Contents() == old(output.Contents()) + if chunked then LAST else []
    ensures done <==> !chunked && !pending
  {
    done := false;
    if chunked {
      var ok := output.Add(LAST, true);
    } else if !pending {
      done := true;
    }
  }
}
