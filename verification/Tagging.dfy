/**
 * Tagged records in an event buffer: tags seven bits to the byte, integers packed by
 * nibbles, and records made of a tag, a length and a payload.
 */
module Tagging {
  import opened Basics
  import opened Evbuffer

  const WORD32: nat := 0x1_0000_0000

  // ---------------------------------------------------------------- tags

  // Seven bits to the byte, least significant first, the top bit set on all but the last.
  function TagBytes(tag: nat): (s: seq<byte>)
    ensures |s| > 0
  {
    if tag < 128 then [tag] else [tag % 128 + 128] + TagBytes(tag / 128)
  }

  // How many bytes the tag at the start of s takes; 0 when s ends before it does.
  function TagLength(s: seq<byte>): (n: nat)
    ensures n <= |s|
  {
    if s == [] then 0
    else if s[0] < 128 then 1
    else if TagLength(s[1..]) == 0 then 0
    else 1 + TagLength(s[1..])
  }

  function TagValue(s: seq<byte>): nat {
    if s == [] then 0
    else if s[0] < 128 then s[0]
    else s[0] - 128 + 128 * TagValue(s[1..])
  }

  // The tag, kept in 32 bits, and what follows it.
  datatype Tag = Tag(tag: nat, length: nat)

  function ReadTag(s: seq<byte>): (r: Option<Tag>)
    ensures r.Some? ==> 0 < r.value.length <= |s|
  {
    if TagLength(s) == 0 then None else Some(Tag(TagValue(s) % WORD32, TagLength(s)))
  }

  lemma {:induction false} TagRoundTrip(tag: nat, rest: seq<byte>)
    ensures TagLength(TagBytes(tag) + rest) == |TagBytes(tag)|
    ensures TagValue(TagBytes(tag) + rest) == tag
  {
    if tag >= 128 {
      TagRoundTrip(tag / 128, rest);
      assert (TagBytes(tag) + rest)[1..] == TagBytes(tag / 128) + rest;
    }
  }

  lemma {:induction false} TagBytesFit(tag: nat, k: nat)
    requires tag < Pow(128, k) && k > 0
    ensures |TagBytes(tag)| <= k
    decreases k
  {
    if tag >= 128 {
      TagBytesFit(tag / 128, k - 1);
    }
  }

  function Pow(b: nat, k: nat): nat {
    if k == 0 then 1 else b * Pow(b, k - 1)
  }

  // Digit k of x to the base b, the last one first.
  function Digit(x: nat, b: nat, k: nat): nat
    requires b > 0
    decreases k
  {
    if k == 0 then x % b else Digit(x / b, b, k - 1)
  }

  // Byte k holds the k-th seven bits, and a top bit if it is not the last; there are as few bytes as will do.
  lemma {:induction false} TagLayout(tag: nat, k: nat)
    requires k < |TagBytes(tag)|
    ensures TagBytes(tag)[k] == Digit(tag, 128, k) + if k + 1 < |TagBytes(tag)| then 128 else 0
    ensures tag < Pow(128, |TagBytes(tag)|)
    ensures |TagBytes(tag)| > 1 ==> tag >= Pow(128, |TagBytes(tag)| - 1)
    decreases |TagBytes(tag)|
  {
    if tag >= 128 {
      var n := |TagBytes(tag / 128)|;
      if k > 0 {
        TagLayout(tag / 128, k - 1);
      } else {
        TagLayout(tag / 128, 0);
      }
      assert n > 0 && Pow(128, n + 1) == 128 * Pow(128, n) && Pow(128, n) == 128 * Pow(128, n - 1);
      assert tag < 128 * (tag / 128 + 1);
    } else {
      assert Pow(128, 1) == 128 * Pow(128, 0);
    }
  }

  // Five bytes are enough for 32 bits.
  method PackTag(number: nat) returns (data: array<byte>, bytes: nat)
    requires number < WORD32
    ensures fresh(data) && data.Length == 5 && bytes <= 5 && data[..bytes] == TagBytes(number)
  {
    data := new byte[5](_ => 0);
    assert Pow(128, 5) == 128 * (128 * (128 * (128 * (128 * Pow(128, 0)))));
    TagBytesFit(number, 5);
    var tag := number;
    bytes := 0;
    var more := true;
    while more
      invariant bytes <= 5
      invariant if more then TagBytes(number) == data[..bytes] + TagBytes(tag) else TagBytes(number) == data[..bytes]
      decreases more, tag
    {
      var lower := tag % 128;
      tag := tag / 128;
      if tag != 0 {
        lower := lower + 128;
      }
      data[bytes] := lower;
      bytes := bytes + 1;
      more := tag != 0;
    }
  }

  // evtag_encode_tag
  method EncodeTag(evbuf: Buffer, tag: nat) returns (bytes: nat)
    requires evbuf.Valid() && tag < WORD32
    modifies evbuf, evbuf.orig
    ensures evbuf.Valid() && (evbuf.orig == old(evbuf.orig) || fresh(evbuf.orig))
    ensures evbuf.Contents() == old(evbuf.Contents()) + TagBytes(tag) && bytes == |TagBytes(tag)| <= 5
  {
    var data;
    data, bytes := PackTag(tag);
    var ok := evbuf.Add(data[..bytes], true);
  }

  // decode_tag_internal
  method DecodeTag(evbuf: Buffer, dodrain: bool) returns (r: Option<Tag>)
    requires evbuf.Valid()
    modifies evbuf
    ensures evbuf.Valid() && evbuf.orig == old(evbuf.orig)
    ensures r == ReadTag(old(evbuf.Contents()))
    ensures evbuf.Contents() ==
      if dodrain && r.Some? then old(evbuf.Contents())[r.value.length..] else old(evbuf.Contents())
  {
    var data := evbuf.orig[evbuf.start..evbuf.start + evbuf.off];
    r := ScanTag(data);
    if dodrain && r.Some? {
      evbuf.Drain(r.value.length);
    }
  }

  method ScanTag(data: seq<byte>) returns (r: Option<Tag>)
    ensures r == ReadTag(data)
  {
    var number: nat, count, unit: nat := 0, 0, 1;
    while count < |data|
      invariant 0 <= count <= |data| && unit == Pow(128, count) && number < WORD32
      invariant (number + unit * TagValue(data[count..])) % WORD32 == TagValue(data) % WORD32
      invariant TagLength(data) == if TagLength(data[count..]) == 0 then 0 else count + TagLength(data[count..])
    {
      var lower := data[count];
      ghost var rest := data[count..];
      assert rest[1..] == data[count + 1..];
      if lower < 128 {
        number := (number + unit * lower) % WORD32;
        return Some(Tag(number, count + 1));
      }
      ShiftIn(number, unit, lower - 128, TagValue(rest[1..]));
      number := (number + unit * (lower - 128)) % WORD32;
      unit := unit * 128;
      count := count + 1;
    }
    return None;
  }

  lemma ShiftIn(number: nat, unit: nat, lower: nat, higher: nat)
    ensures ((number + unit * lower) % WORD32 + unit * 128 * higher) % WORD32 ==
      (number + unit * (lower + 128 * higher)) % WORD32
  {
    var a, b := number + unit * lower, unit * 128 * higher;
    assert a + b == number + unit * (lower + 128 * higher);
    ModSum(a, b);
  }

  lemma ModSum(a: nat, b: nat)
    ensures (a % WORD32 + b) % WORD32 == (a + b) % WORD32
  {
  }

  // ---------------------------------------------------------------- integers

  // Nibble i of packed data: odd ones are the low halves of their bytes.
  function Nibble(d: seq<byte>, i: nat): (v: nat)
    requires i / 2 < |d|
    ensures v < 16
  {
    if i % 2 == 1 then d[i / 2] % 16 else d[i / 2] / 16
  }

  function SetNibble(d: seq<byte>, i: nat, v: nat): (r: seq<byte>)
    requires i / 2 < |d| && v < 16
    ensures |r| == |d| && Nibble(r, i) == v
    ensures forall j: nat :: j / 2 < |d| && j != i ==> Nibble(r, j) == Nibble(d, j)
  {
    d[i / 2 := if i % 2 == 1 then d[i / 2] / 16 * 16 + v else d[i / 2] % 16 + v * 16]
  }

  // The number whose nibbles, least significant first, are nibbles i to n.
  function Gather(d: seq<byte>, i: nat, n: nat): nat
    requires n / 2 < |d| && i <= n + 1
    decreases n + 1 - i
  {
    if i > n then 0 else Nibble(d, i) + 16 * Gather(d, i + 1, n)
  }

  datatype Packed = Packed(data: seq<byte>, off: nat)

  // The loop of encode_int: nibble after nibble of the number, from position off on.
  function Pack(d: seq<byte>, off: nat, number: nat): (r: Packed)
    requires |d| == 5 && 1 <= off <= 9 && number < Pow(16, 9 - off)
    ensures |r.data| == 5 && off <= r.off <= 9
    decreases number
  {
    if number == 0 then Packed(d, off)
    else Pack(SetNibble(d, off, number % 16), off + 1, number / 16)
  }

  lemma {:induction false} PackGathers(d: seq<byte>, off: nat, number: nat)
    requires |d| == 5 && 1 <= off <= 9 && number < Pow(16, 9 - off)
    ensures var r := Pack(d, off, number);
            Gather(r.data, off, r.off - 1) == number &&
            (forall j: nat :: j < off ==> Nibble(r.data, j) == Nibble(d, j)) &&
            (number > 0 ==> r.off > off)
    decreases number
  {
    if number > 0 {
      PackGathers(SetNibble(d, off, number % 16), off + 1, number / 16);
    }
  }

  const BLANK: seq<byte> := [0, 0, 0, 0, 0]

  // What encode_int writes.
  function IntBytes(x: nat): (s: seq<byte>)
    requires x < WORD32
    ensures 1 <= |s| <= 5
  {
    SixteenToTheEighth();
    var p := Pack(BLANK, 1, x);
    SetNibble(p.data, 0, if p.off > 2 then p.off - 2 else 0)[..(p.off + 1) / 2]
  }

  lemma SixteenToTheEighth()
    ensures Pow(16, 8) == WORD32
  {
    assert Pow(16, 8) == 16 * (16 * (16 * (16 * (16 * (16 * (16 * (16 * Pow(16, 0))))))));
  }

  datatype Number = Number(value: nat, length: nat)

  // What decode_int_internal reads: the first nibble counts the others, less one.
  function ReadInt(s: seq<byte>): (r: Option<Number>)
    ensures r.Some? ==> 0 < r.value.length <= |s| && r.value.value < WORD32
  {
    if s == [] then None
    else
      var nibbles := s[0] / 16 + 1;
      if nibbles > 8 || nibbles / 2 + 1 > |s| then None
      else
        GatherFits(s, 1, nibbles);
        SixteenToTheEighth();
        PowGrows(nibbles, 8);
        Some(Number(Gather(s, 1, nibbles), nibbles / 2 + 1))
  }

  lemma {:induction false} GatherFits(d: seq<byte>, i: nat, n: nat)
    requires n / 2 < |d| && i <= n + 1
    ensures Gather(d, i, n) < Pow(16, n + 1 - i)
    decreases n + 1 - i
  {
    if i <= n {
      GatherFits(d, i + 1, n);
    }
  }

  lemma {:induction false} PowGrows(k: nat, n: nat)
    requires k <= n
    ensures 0 < Pow(16, k) <= Pow(16, n)
    decreases n
  {
    if k < n {
      PowGrows(k, n - 1);
    } else if k > 0 {
      PowGrows(k - 1, n - 1);
    }
  }

  lemma {:induction false} GatherSame(d: seq<byte>, e: seq<byte>, i: nat, n: nat)
    requires n / 2 < |d| && n / 2 < |e| && i <= n + 1
    requires forall j: nat :: i <= j <= n ==> Nibble(d, j) == Nibble(e, j)
    ensures Gather(d, i, n) == Gather(e, i, n)
    decreases n + 1 - i
  {
    if i <= n {
      GatherSame(d, e, i + 1, n);
    }
  }

  lemma {:induction false} IntRoundTrip(x: nat, rest: seq<byte>)
    requires x < WORD32
    ensures ReadInt(IntBytes(x) + rest) == Some(Number(x, |IntBytes(x)|))
  {
    SixteenToTheEighth();
    PackGathers(BLANK, 1, x);
    var p := Pack(BLANK, 1, x);
    var count := if p.off > 2 then p.off - 2 else 0;
    var d := SetNibble(p.data, 0, count);
    var s := IntBytes(x) + rest;
    assert s[0] == d[0] && Nibble(d, 0) == count;
    var nibbles := count + 1;
    PackedGathers(x, nibbles);
    SameNibbles(s, d, p.data, nibbles);
    GatherSame(s, p.data, 1, nibbles);
  }

  lemma {:induction false} PackedGathers(x: nat, nibbles: nat)
    requires x < Pow(16, 8)
    requires var off := Pack(BLANK, 1, x).off; nibbles == (if off > 2 then off - 2 else 0) + 1
    ensures Gather(Pack(BLANK, 1, x).data, 1, nibbles) == x
  {
    var p := Pack(BLANK, 1, x);
    PackGathers(BLANK, 1, x);
    assert Nibble(BLANK, 1) == 0;
    if p.off == 1 {
      assert Gather(p.data, 1, 1) == Nibble(p.data, 1) + 16 * Gather(p.data, 2, 1);
    }
  }

  lemma {:induction false} SameNibbles(s: seq<byte>, d: seq<byte>, e: seq<byte>, n: nat)
    requires n / 2 < |s| && n / 2 < |d| && |d| == |e| && s[..n / 2 + 1] == d[..n / 2 + 1]
    requires forall j: nat :: j / 2 < |d| && j != 0 ==> Nibble(d, j) == Nibble(e, j)
    ensures forall j: nat :: 1 <= j <= n ==> Nibble(s, j) == Nibble(e, j)
  {
    forall j: nat | 1 <= j <= n
      ensures Nibble(s, j) == Nibble(e, j)
    {
      assert s[j / 2] == s[..n / 2 + 1][j / 2] == d[j / 2];
    }
  }

  lemma {:induction false} GatherDigits(d: seq<byte>, i: nat, n: nat, j: nat)
    requires n / 2 < |d| && i <= j <= n
    ensures Digit(Gather(d, i, n), 16, j - i) == Nibble(d, j)
    decreases n + 1 - i
  {
    var g := Gather(d, i + 1, n);
    assert Gather(d, i, n) == Nibble(d, i) + 16 * g;
    Sixteen(Nibble(d, i), g);
    if i < j {
      GatherDigits(d, i + 1, n, j);
    }
  }

  lemma Sixteen(v: nat, g: nat)
    requires v < 16
    ensures (v + 16 * g) % 16 == v && (v + 16 * g) / 16 == g
  {
  }

  // As many nibbles are packed as the number has digits.
  lemma {:induction false} PackLength(d: seq<byte>, off: nat, number: nat, n: nat)
    requires |d| == 5 && 1 <= off <= 9 && number < Pow(16, 9 - off) && n <= 9 - off
    requires number < Pow(16, n) && (n > 0 ==> number >= Pow(16, n - 1))
    ensures Pack(d, off, number).off == off + n
    decreases number
  {
    if n == 0 {
      assert number == 0;
    } else {
      PowGrows(0, n - 1);
      assert Pow(16, n) == 16 * Pow(16, n - 1);
      if n > 1 {
        assert Pow(16, n - 1) == 16 * Pow(16, n - 2);
      } else {
        assert Pow(16, 1) == 16 * Pow(16, 0);
      }
      PackLength(SetNibble(d, off, number % 16), off + 1, number / 16, n - 1);
    }
  }

  // A number of n hexadecimal digits is written as n - 1 and the digits, the last one first, two to
  // the byte, the high half of each byte before the low one.
  lemma {:induction false} IntLayout(x: nat, n: nat, i: nat)
    requires x < WORD32 && 1 <= i <= n <= 8 && x < Pow(16, n) && (n > 1 ==> x >= Pow(16, n - 1))
    ensures |IntBytes(x)| == n / 2 + 1 && IntBytes(x)[0] / 16 == n - 1
    ensures Digit(x, 16, i - 1) == if i % 2 == 1 then IntBytes(x)[i / 2] % 16 else IntBytes(x)[i / 2] / 16
  {
    SixteenToTheEighth();
    if x == 0 {
      PackLength(BLANK, 1, x, 0);
    } else {
      PackLength(BLANK, 1, x, n);
    }
    var s := IntBytes(x);
    assert s + [] == s;
    IntRoundTrip(x, []);
    PackedCount(x);
    GatherDigits(s, 1, n, i);
  }

  lemma {:induction false} PackedCount(x: nat)
    requires x < WORD32 && Pow(16, 8) == WORD32
    ensures var off := Pack(BLANK, 1, x).off;
      |IntBytes(x)| == (off + 1) / 2 && IntBytes(x)[0] / 16 == if off > 2 then off - 2 else 0
  {
    var p := Pack(BLANK, 1, x);
    assert Nibble(SetNibble(p.data, 0, if p.off > 2 then p.off - 2 else 0), 0) == if p.off > 2 then p.off - 2 else 0;
  }

  method PutNibble(data: array<byte>, off: nat, v: nat)
    requires off / 2 < data.Length && v < 16
    modifies data
    ensures data[..] == SetNibble(old(data[..]), off, v)
  {
    if off % 2 == 1 {
      data[off / 2] := data[off / 2] / 16 * 16 + v;
    } else {
      data[off / 2] := data[off / 2] % 16 + v * 16;
    }
  }

  method PackInt(x: nat) returns (data: array<byte>, off: nat)
    requires x < WORD32
    ensures fresh(data) && data.Length == 5 && off <= 9 && data[..(off + 1) / 2] == IntBytes(x)
  {
    SixteenToTheEighth();
    data := new byte[5](_ => 0);
    assert data[..] == BLANK;
    off := 1;
    var number: nat := x;
    while number != 0
      invariant 1 <= off <= 9 && number < Pow(16, 9 - off) && Pack(data[..], off, number) == Pack(BLANK, 1, x)
      decreases number
    {
      PutNibble(data, off, number % 16);
      number := number / 16;
      off := off + 1;
    }
    var nibbles := if off > 2 then off - 2 else 0;
    PutNibble(data, 0, nibbles);
    assert data[..(off + 1) / 2] == data[..][..(off + 1) / 2];
  }

  // encode_int
  method EncodeInt(evbuf: Buffer, x: nat)
    requires evbuf.Valid() && x < WORD32
    modifies evbuf, evbuf.orig
    ensures evbuf.Valid() && (evbuf.orig == old(evbuf.orig) || fresh(evbuf.orig))
    ensures evbuf.Contents() == old(evbuf.Contents()) + IntBytes(x)
  {
    var data, off := PackInt(x);
    var ok := evbuf.Add(data[..(off + 1) / 2], true);
  }

  method ScanInt(data: seq<byte>) returns (r: Option<Number>)
    ensures r == ReadInt(data)
  {
    if data == [] {
      return None;
    }
    var nibbles := data[0] / 16 + 1;
    if nibbles > 8 || nibbles / 2 + 1 > |data| {
      return None;
    }
    var len := nibbles / 2 + 1;
    ghost var n := nibbles;
    var number: nat := 0;
    while nibbles > 0
      invariant 0 <= nibbles <= n && number == Gather(data, nibbles + 1, n)
    {
      number := number * 16 + if nibbles % 2 == 1 then data[nibbles / 2] % 16 else data[nibbles / 2] / 16;
      nibbles := nibbles - 1;
    }
    return Some(Number(number, len));
  }

  // decode_int_internal
  method DecodeInt(evbuf: Buffer, dodrain: bool) returns (r: Option<Number>)
    requires evbuf.Valid()
    modifies evbuf
    ensures evbuf.Valid() && evbuf.orig == old(evbuf.orig)
    ensures r == ReadInt(old(evbuf.Contents()))
    ensures evbuf.Contents() ==
      if dodrain && r.Some? then old(evbuf.Contents())[r.value.length..] else old(evbuf.Contents())
  {
    var data := evbuf.orig[evbuf.start..evbuf.start + evbuf.off];
    r := ScanInt(data);
    if dodrain && r.Some? {
      evbuf.Drain(r.value.length);
    }
  }

  // ---------------------------------------------------------------- records

  // A record as it is written, and as it is read back.
  datatype Record = Bytes(tag: nat, payload: seq<byte>) | Integer(tag: nat, value: nat)

  predicate Writable(r: Record) {
    r.tag < WORD32 && (if r.Bytes? then |r.payload| < WORD32 else r.value < WORD32)
  }

  function Marshalled(tag: nat, payload: seq<byte>): seq<byte>
    requires |payload| < WORD32
  {
    TagBytes(tag) + IntBytes(|payload|) + payload
  }

  function RecordBytes(r: Record): seq<byte>
    requires Writable(r)
  {
    match r
    case Bytes(tag, payload) => Marshalled(tag, payload)
    case Integer(tag, value) => Marshalled(tag, IntBytes(value))
  }

  // The header of a record: its tag, the length of its payload and where that starts.
  datatype Header = Header(tag: nat, length: nat, start: nat)

  function ReadHeader(s: seq<byte>): (r: Option<Header>)
    ensures r.Some? ==> 0 < r.value.start <= |s| && r.value.length < WORD32
  {
    match ReadTag(s)
    case None => None
    case Some(t) =>
      match ReadInt(s[t.length..])
      case None => None
      case Some(n) => Some(Header(t.tag, n.value, t.length + n.length))
  }

  datatype Payload = Payload(tag: nat, bytes: seq<byte>, rest: seq<byte>)

  // What evtag_unmarshal reads.
  function ReadRecord(s: seq<byte>): Option<Payload> {
    match ReadHeader(s)
    case None => None
    case Some(h) =>
      if |s| - h.start < h.length then None
      else Some(Payload(h.tag, s[h.start..h.start + h.length], s[h.start + h.length..]))
  }

  lemma {:induction false} HeaderRoundTrip(tag: nat, payload: seq<byte>, rest: seq<byte>)
    requires tag < WORD32 && |payload| < WORD32
    ensures ReadHeader(Marshalled(tag, payload) + rest) ==
      Some(Header(tag, |payload|, |TagBytes(tag)| + |IntBytes(|payload|)|))
  {
    var t, l := TagBytes(tag), IntBytes(|payload|);
    var s := Marshalled(tag, payload) + rest;
    assert s == t + (l + (payload + rest));
    ReadTagRoundTrip(tag, l + (payload + rest));
    assert s[|t|..] == l + (payload + rest);
    IntRoundTrip(|payload|, payload + rest);
  }

  lemma {:induction false} ReadTagRoundTrip(tag: nat, rest: seq<byte>)
    requires tag < WORD32
    ensures ReadTag(TagBytes(tag) + rest) == Some(Tag(tag, |TagBytes(tag)|))
  {
    TagRoundTrip(tag, rest);
  }

  lemma {:induction false} RecordRoundTrip(tag: nat, payload: seq<byte>, rest: seq<byte>)
    requires tag < WORD32 && |payload| < WORD32
    ensures ReadRecord(Marshalled(tag, payload) + rest) == Some(Payload(tag, payload, rest))
  {
    HeaderRoundTrip(tag, payload, rest);
    var k := |TagBytes(tag)| + |IntBytes(|payload|)|;
    var s := Marshalled(tag, payload) + rest;
    assert s[k..k + |payload|] == payload && s[k + |payload|..] == rest;
  }

  datatype Got = Got(record: Record, rest: seq<byte>)

  // evtag_unmarshal or evtag_unmarshal_int, as the kind asks; the latter also wants the tag.
  function ReadAs(s: seq<byte>, kind: Record): Option<Got> {
    match ReadRecord(s)
    case None => None
    case Some(p) =>
      if kind.Bytes? then Some(Got(Bytes(p.tag, p.bytes), p.rest))
      else if p.tag != kind.tag || ReadInt(p.bytes).None? then None
      else Some(Got(Integer(p.tag, ReadInt(p.bytes).value.value), p.rest))
  }

  lemma {:induction false} ReadAsRoundTrip(r: Record, rest: seq<byte>)
    requires Writable(r)
    ensures ReadAs(RecordBytes(r) + rest, r) == Some(Got(r, rest))
  {
    match r
    case Bytes(tag, payload) =>
      RecordRoundTrip(tag, payload, rest);
    case Integer(tag, value) =>
      RecordRoundTrip(tag, IntBytes(value), rest);
      IntRoundTrip(value, []);
      assert IntBytes(value) + [] == IntBytes(value);
  }

  // Record after record, with any way of writing one.
  function WrittenBy(rs: seq<Record>, write: Record -> seq<byte>): seq<byte> {
    if rs == [] then [] else write(rs[0]) + WrittenBy(rs[1..], write)
  }

  datatype Read = Read(records: seq<Record>, rest: seq<byte>)

  // Record after record, each read in the kind it was written in, with any way of reading one.
  function ReadBy(s: seq<byte>, kinds: seq<Record>, read: (seq<byte>, Record) -> Option<Got>): Option<Read>
    decreases |kinds|
  {
    if kinds == [] then Some(Read([], s))
    else
      match read(s, kinds[0])
      case None => None
      case Some(g) =>
        match ReadBy(g.rest, kinds[1..], read)
        case None => None
        case Some(more) => Some(Read([g.record] + more.records, more.rest))
  }

  lemma {:induction false} SequenceRoundTrip(rs: seq<Record>, rest: seq<byte>, write: Record -> seq<byte>,
      read: (seq<byte>, Record) -> Option<Got>)
    requires forall i, t {:trigger read(write(rs[i]) + t, rs[i])} :: 0 <= i < |rs| ==>
      read(write(rs[i]) + t, rs[i]) == Some(Got(rs[i], t))
    ensures ReadBy(WrittenBy(rs, write) + rest, rs, read) == Some(Read(rs, rest))
  {
    if rs == [] {
      assert WrittenBy(rs, write) + rest == rest;
    } else {
      var more := WrittenBy(rs[1..], write);
      assert WrittenBy(rs, write) + rest == write(rs[0]) + (more + rest);
      assert read(write(rs[0]) + (more + rest), rs[0]) == Some(Got(rs[0], more + rest));
      forall i, t | 0 <= i < |rs[1..]|
        ensures read(write(rs[1..][i]) + t, rs[1..][i]) == Some(Got(rs[1..][i], t))
      {
        assert rs[1..][i] == rs[i + 1];
        assert read(write(rs[i + 1]) + t, rs[i + 1]) == Some(Got(rs[i + 1], t));
      }
      SequenceRoundTrip(rs[1..], rest, write, read);
      assert [rs[0]] + rs[1..] == rs;
    }
  }

  // What is written for a record; nothing for one that cannot be.
  function RecordOrNothing(r: Record): seq<byte> {
    if Writable(r) then RecordBytes(r) else []
  }

  // Any sequence of records, marshalled, reads back as itself and leaves what follows it.
  lemma {:induction false} WrittenReads(rs: seq<Record>, rest: seq<byte>)
    requires forall i :: 0 <= i < |rs| ==> Writable(rs[i])
    ensures ReadBy(WrittenBy(rs, RecordOrNothing) + rest, rs, ReadAs) == Some(Read(rs, rest))
  {
    forall i, t | 0 <= i < |rs|
      ensures ReadAs(RecordOrNothing(rs[i]) + t, rs[i]) == Some(Got(rs[i], t))
    {
      ReadAsRoundTrip(rs[i], t);
    }
    SequenceRoundTrip(rs, rest, RecordOrNothing, ReadAs);
  }

  // ---- records in buffers

  lemma Appended(was: seq<byte>, a: seq<byte>, b: seq<byte>, c: seq<byte>)
    ensures was + a + b + c == was + (a + b + c)
  {
  }

  // The tag and the length of a record.
  method EncodeHeader(evbuf: Buffer, tag: nat, length: nat)
    requires evbuf.Valid() && tag < WORD32 && length < WORD32
    modifies evbuf, evbuf.orig
    ensures evbuf.Valid() && (evbuf.orig == old(evbuf.orig) || fresh(evbuf.orig))
    ensures evbuf.Contents() == old(evbuf.Contents()) + TagBytes(tag) + IntBytes(length)
  {
    var bytes := EncodeTag(evbuf, tag);
    EncodeInt(evbuf, length);
  }

  // evtag_marshal
  method Marshal(evbuf: Buffer, tag: nat, data: seq<byte>)
    requires evbuf.Valid() && tag < WORD32 && |data| < WORD32
    modifies evbuf, evbuf.orig
    ensures evbuf.Valid() && (evbuf.orig == old(evbuf.orig) || fresh(evbuf.orig))
    ensures evbuf.Contents() == old(evbuf.Contents()) + RecordBytes(Bytes(tag, data))
    ensures evbuf.Contents() == old(evbuf.Contents()) + (TagBytes(tag) + IntBytes(|data|) + data)
  {
    Appended(evbuf.Contents(), TagBytes(tag), IntBytes(|data|), data);
    EncodeHeader(evbuf, tag, |data|);
    var ok := evbuf.Add(data, true);
  }

  // The scratch buffer holds one integer and nothing else.
  method EncodeAlone(scratch: Buffer, x: nat)
    requires scratch.Valid() && x < WORD32
    modifies scratch, scratch.orig
    ensures scratch.Valid() && (scratch.orig == old(scratch.orig) || fresh(scratch.orig))
    ensures scratch.Contents() == IntBytes(x)
  {
    scratch.Drain(scratch.off);
    EncodeInt(scratch, x);
  }

  // evtag_marshal_int; scratch is the file's own buffer
  method MarshalInt(evbuf: Buffer, scratch: Buffer, tag: nat, x: nat)
    requires evbuf.Valid() && scratch.Valid() && evbuf != scratch && evbuf.orig != scratch.orig && tag < WORD32 &&
      x < WORD32
    modifies evbuf, evbuf.orig, scratch, scratch.orig
    ensures evbuf.Valid() && scratch.Valid() && evbuf.orig != scratch.orig
    ensures evbuf.Contents() == old(evbuf.Contents()) + RecordBytes(Integer(tag, x))
    ensures evbuf.Contents() == old(evbuf.Contents()) + (TagBytes(tag) + IntBytes(|IntBytes(x)|) + IntBytes(x))
  {
    Appended(evbuf.Contents(), TagBytes(tag), IntBytes(|IntBytes(x)|), IntBytes(x));
    EncodeAlone(scratch, x);
    EncodeHeader(evbuf, tag, scratch.off);
    var ok := evbuf.AddBuffer(scratch, true);
  }

  // The tag, which may have to be a certain one, and the length of a record, taken off the buffer.
  method DecodeHeader(src: Buffer, want: Option<nat>) returns (r: Option<Header>)
    requires src.Valid()
    modifies src
    ensures src.Valid() && src.orig == old(src.orig)
    ensures r == Wanted(ReadHeader(old(src.Contents())), want)
    ensures r.Some? ==> src.Contents() == old(src.Contents())[r.value.start..]
  {
    ghost var s := src.Contents();
    var t := DecodeTag(src, true);
    if t.None? {
      return None;
    }
    ghost var behind := src.Contents();
    HeaderIs(s, t.value, behind);
    if want.Some? && want.value != t.value.tag {
      return None;
    }
    var n := DecodeInt(src, true);
    if n.None? {
      return None;
    }
    assert src.Contents() == behind[n.value.length..];
    return Some(Header(t.value.tag, n.value.value, t.value.length + n.value.length));
  }

  lemma {:induction false} HeaderIs(s: seq<byte>, t: Tag, behind: seq<byte>)
    requires ReadTag(s) == Some(t) && behind == s[t.length..]
    ensures ReadInt(behind).None? ==> ReadHeader(s) == None
    ensures ReadInt(behind).Some? ==>
      var n := ReadInt(behind).value;
      ReadHeader(s) == Some(Header(t.tag, n.value, t.length + n.length)) &&
      behind[n.length..] == s[t.length + n.length..]
  {
  }

  function Wanted(h: Option<Header>, want: Option<nat>): Option<Header> {
    if h.Some? && (want.None? || want.value == h.value.tag) then h else None
  }

  // The payload moves to the end of dst.
  method TakePayload(src: Buffer, dst: Buffer, len: nat) returns (bytes: seq<byte>)
    requires src.Valid() && dst.Valid() && src != dst && src.orig != dst.orig && len <= src.off
    modifies src, dst, dst.orig
    ensures src.Valid() && dst.Valid() && src.orig == old(src.orig) && src.orig != dst.orig
    ensures bytes == old(src.Contents())[..len] && src.Contents() == old(src.Contents())[len..]
    ensures dst.Contents() == old(dst.Contents()) + bytes
  {
    bytes := src.orig[src.start..src.start + len];
    assert bytes == src.Contents()[..len];
    var ok := dst.Add(bytes, true);
    src.Drain(len);
  }

  lemma RecordParts(s: seq<byte>, h: Header)
    requires ReadHeader(s) == Some(h)
    ensures |s[h.start..]| < h.length <==> ReadRecord(s) == None
    ensures |s[h.start..]| >= h.length ==>
      ReadRecord(s) == Some(Payload(h.tag, s[h.start..][..h.length], s[h.start..][h.length..]))
  {
    if |s[h.start..]| >= h.length {
      assert s[h.start..][..h.length] == s[h.start..h.start + h.length];
      assert s[h.start..][h.length..] == s[h.start + h.length..];
    }
  }

  lemma IntegerParts(s: seq<byte>, h: Header)
    requires ReadHeader(s) == Some(h)
    ensures var left := s[h.start..];
            ReadAs(s, Integer(h.tag, 0)) ==
            if |left| < h.length || ReadInt(left[..h.length]).None? then None
            else Some(Got(Integer(h.tag, ReadInt(left[..h.length]).value.value), left[h.length..]))
  {
    RecordParts(s, h);
  }

  // evtag_unmarshal
  method Unmarshal(src: Buffer, dst: Buffer) returns (r: Option<Payload>)
    requires src.Valid() && dst.Valid() && src != dst && src.orig != dst.orig
    modifies src, dst, dst.orig
    ensures src.Valid() && dst.Valid() && src.orig == old(src.orig) && src.orig != dst.orig
    ensures r == ReadRecord(old(src.Contents()))
    ensures r.Some? ==> src.Contents() == r.value.rest && dst.Contents() == old(dst.Contents()) + r.value.bytes
    ensures r.None? ==> dst.Contents() == old(dst.Contents())
  {
    var h := DecodeHeader(src, None);
    if h.None? {
      return None;
    }
    RecordParts(old(src.Contents()), h.value);
    if src.off < h.value.length {
      return None;
    }
    var bytes := TakePayload(src, dst, h.value.length);
    r := Some(Payload(h.value.tag, bytes, src.orig[src.start..src.start + src.off]));
  }

  // evtag_unmarshal_int
  method UnmarshalInt(evbuf: Buffer, scratch: Buffer, needTag: nat) returns (r: Option<nat>)
    requires evbuf.Valid() && scratch.Valid() && evbuf != scratch && evbuf.orig != scratch.orig
    modifies evbuf, scratch, scratch.orig
    ensures evbuf.Valid() && scratch.Valid() && evbuf.orig == old(evbuf.orig) && evbuf.orig != scratch.orig
    ensures var g := ReadAs(old(evbuf.Contents()), Integer(needTag, 0));
            if g.None? then r == None else r == Some(g.value.record.value) && evbuf.Contents() == g.value.rest
  {
    var h := DecodeHeader(evbuf, Some(needTag));
    if h.None? {
      return None;
    }
    IntegerParts(old(evbuf.Contents()), h.value);
    if evbuf.off < h.value.length {
      return None;
    }
    r := TakeInt(evbuf, scratch, h.value.length);
  }

  // The payload passes through the scratch buffer, and is read as an integer there.
  method TakeInt(evbuf: Buffer, scratch: Buffer, len: nat) returns (r: Option<nat>)
    requires evbuf.Valid() && scratch.Valid() && evbuf != scratch && evbuf.orig != scratch.orig && len <= evbuf.off
    modifies evbuf, scratch, scratch.orig
    ensures evbuf.Valid() && scratch.Valid() && evbuf.orig == old(evbuf.orig) && evbuf.orig != scratch.orig
    ensures r == ValueOf(ReadInt(old(evbuf.Contents())[..len])) && evbuf.Contents() == old(evbuf.Contents())[len..]
  {
    scratch.Drain(scratch.off);
    var bytes := TakePayload(evbuf, scratch, len);
    assert scratch.Contents() == bytes;
    var x := DecodeInt(scratch, true);
    r := ValueOf(x);
  }

  function ValueOf(x: Option<Number>): Option<nat> {
    if x.None? then None else Some(x.value.value)
  }

  // evtag_peek_length: how long the whole record is, in 32 bits.
  function PeekLength(s: seq<byte>): Option<nat> {
    match ReadHeader(s)
    case None => None
    case Some(h) => Some((h.start + h.length) % WORD32)
  }

  method ReadPeekLength(evbuf: Buffer) returns (r: Option<nat>)
    requires evbuf.Valid()
    modifies evbuf
    ensures evbuf.Valid() && evbuf.orig == old(evbuf.orig) && evbuf.Contents() == old(evbuf.Contents())
    ensures r == PeekLength(evbuf.Contents())
  {
    var t := DecodeTag(evbuf, false);
    if t.None? {
      return None;
    }
    var after := evbuf.orig[evbuf.start + t.value.length..evbuf.start + evbuf.off];
    assert after == evbuf.Contents()[t.value.length..];
    var n := ScanInt(after);
    if n.None? {
      return None;
    }
    return Some((n.value.value + n.value.length + t.value.length) % WORD32);
  }

  // What evtag_consume leaves: nothing of an incomplete record.
  function Consumed(s: seq<byte>): Option<seq<byte>> {
    match ReadHeader(s)
    case None => None
    case Some(h) => Some(if h.length >= |s| - h.start then [] else s[h.start + h.length..])
  }

  lemma ConsumedParts(s: seq<byte>, h: Header)
    requires ReadHeader(s) == Some(h)
    ensures Consumed(s) == Some(if h.length >= |s[h.start..]| then [] else s[h.start..][h.length..])
  {
    if h.length < |s[h.start..]| {
      assert s[h.start..][h.length..] == s[h.start + h.length..];
    }
  }

  // evtag_consume
  method Consume(evbuf: Buffer) returns (ok: bool)
    requires evbuf.Valid()
    modifies evbuf
    ensures evbuf.Valid() && evbuf.orig == old(evbuf.orig)
    ensures ok <==> Consumed(old(evbuf.Contents())).Some?
    ensures ok ==> evbuf.Contents() == Consumed(old(evbuf.Contents())).value
  {
    var h := DecodeHeader(evbuf, None);
    if h.None? {
      return false;
    }
    ConsumedParts(old(evbuf.Contents()), h.value);
    evbuf.Drain(h.value.length);
    return true;
  }

  // The length that is peeked is what is consumed exactly when the record is complete.
  lemma PeekIsConsumed(s: seq<byte>)
    requires |s| < WORD32
    ensures PeekLength(s).Some? <==> Consumed(s).Some?
    ensures PeekLength(s).Some? ==> (PeekLength(s).value == |s| - |Consumed(s).value| <==> ReadRecord(s).Some?)
  {
    var h := ReadHeader(s);
    if h.Some? {
      RecordParts(s, h.value);
      ConsumedParts(s, h.value);
      assert PeekLength(s) == Some((h.value.start + h.value.length) % WORD32);
      Wrapped(h.value.start, h.value.length, |s|);
    }
  }

  lemma Wrapped(start: nat, length: nat, n: nat)
    requires 0 < start <= n < WORD32 && length < WORD32
    ensures length > n - start ==> (start + length) % WORD32 != n
    ensures length <= n - start ==> (start + length) % WORD32 == start + length
  {
  }
}
