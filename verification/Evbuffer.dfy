/**
 * The event buffer: a growable array whose content starts at a misalignment, behaving
 * as a first-in first-out queue of bytes.
 */
module Evbuffer {

  import opened Basics

  const CR: byte := 13
  const LF: byte := 10

  // ---------------------------------------------------------------- lines

  // The first line end, or the length if there is none.
  function LineEnd(s: seq<byte>): (i: nat)
    ensures i <= |s| && (i < |s| ==> s[i] == CR || s[i] == LF)
    ensures forall j :: 0 <= j < i ==> s[j] != CR && s[j] != LF
  {
    if s == [] || s[0] == CR || s[0] == LF then 0 else 1 + LineEnd(s[1..])
  }

  // Where the next line starts: a CR and an LF in a row, in either order, end one line.
  function LineNext(s: seq<byte>): (n: nat)
    requires LineEnd(s) < |s|
    ensures LineEnd(s) < n <= |s| && n <= LineEnd(s) + 2
  {
    var i := LineEnd(s);
    if i + 1 < |s| && (s[i + 1] == CR || s[i + 1] == LF) && s[i + 1] != s[i] then i + 2 else i + 1
  }

  // A line goes up to the first CR or LF; the other of the two behind it belongs to its end.
  lemma {:induction false} LineParts(line: seq<byte>, e: byte, rest: seq<byte>)
    requires 13 !in line && 10 !in line && (e == 13 || e == 10)
    ensures LineEnd(line) == |line|
    ensures var s := line + [e] + rest;
      LineEnd(s) == |line| && s[..LineEnd(s)] == line &&
      s[LineNext(s)..] == if rest != [] && rest[0] == (if e == 13 then 10 else 13) then rest[1..] else rest
  {
    var s := line + [e] + rest;
    assert forall i :: 0 <= i < |line| ==> line[i] in line && s[i] == line[i];
    assert s[|line|] == e && s[..|line|] == line && s[|line| + 1..] == rest;
    assert rest != [] ==> s[|line| + 1] == rest[0] && s[|line| + 2..] == rest[1..];
  }

  // The loop of evbuffer_readline
  method ScanLine(data: seq<byte>) returns (i: nat)
    ensures i == LineEnd(data)
  {
    i := 0;
    while i < |data| && data[i] != CR && data[i] != LF
      invariant i <= |data| && LineEnd(data) == i + LineEnd(data[i..])
    {
      i := i + 1;
    }
  }

  // ---------------------------------------------------------------- the buffer

  class Buffer {
    var orig: array<byte>   // orig_buffer
    var start: nat          // buffer, as an offset from orig_buffer
    var misalign: nat
    var off: nat
    var totallen: nat

    ghost predicate Valid()
      reads this
    {
      start == misalign && misalign + off <= totallen && totallen == orig.Length
    }

    // The bytes queued, oldest first.
    ghost function Contents(): (s: seq<byte>)
      requires Valid()
      reads this, orig
      ensures |s| == off
    {
      orig[start..start + off]
    }

    // How many bytes can be added without moving anything.
    function Room(): int
      reads this
    {
      totallen - misalign - off
    }

    // evbuffer_new
    constructor ()
      ensures Valid() && Contents() == [] && fresh(orig)
    {
      orig := new byte[0];
      start, misalign, off, totallen := 0, 0, 0, 0;
    }

    // evbuffer_align
    method Align()
      requires Valid()
      modifies this, orig
      ensures Valid() && Contents() == old(Contents()) && orig == old(orig) && totallen == old(totallen)
      ensures misalign == 0 && off == old(off)
    {
      ghost var was := Contents();
      forall i | 0 <= i < off {
        orig[i] := orig[start + i];
      }
      start := 0;
      misalign := 0;
      assert forall i :: 0 <= i < off ==> orig[i] == was[i];
    }

    // realloc of an aligned buffer
    method Reallocate(length: nat)
      requires Valid() && misalign == 0 && totallen <= length
      modifies this
      ensures Valid() && Contents() == old(Contents()) && fresh(orig) && totallen == length && misalign == 0 &&
        off == old(off)
    {
      var bigger := new byte[length];
      forall i | 0 <= i < totallen {
        bigger[i] := orig[i];
      }
      assert bigger[0..off] == orig[0..off];
      orig := bigger;
      totallen := length;
    }

    // evbuffer_expand; memory says whether realloc succeeds
    method Expand(datlen: nat, memory: bool) returns (ok: bool)
      requires Valid()
      modifies this, orig
      ensures Valid() && Contents() == old(Contents()) && (orig == old(orig) || fresh(orig))
      ensures ok ==> Room() >= datlen
      ensures ok <==> old(Room()) >= datlen || old(misalign) >= datlen || memory
      ensures old(Room()) >= datlen ==> orig == old(orig) && misalign == old(misalign)
    {
      var need := misalign + off + datlen;
      if totallen >= need {
        return true;
      }
      if misalign >= datlen {
        Align();
      } else {
        var length := totallen;
        if length < 256 {
          length := 256;
        }
        while length < need
          invariant length >= 256 && length >= totallen
          decreases need - length
        {
          length := length * 2;
        }
        if misalign != 0 {
          Align();
        }
        if !memory {
          return false;
        }
        Reallocate(length);
      }
      return true;
    }

    // evbuffer_add
    method Add(data: seq<byte>, memory: bool) returns (ok: bool)
      requires Valid()
      modifies this, orig
      ensures Valid() && (orig == old(orig) || fresh(orig))
      ensures ok <==> old(Room()) >= |data| || old(misalign) >= |data| || memory
      ensures Contents() == if ok then old(Contents()) + data else old(Contents())
    {
      ok := true;
      if Room() < |data| {
        ok := Expand(|data|, memory);
        if !ok {
          return;
        }
      }
      Copy(data);
    }

    // memcpy to the end of the content
    method Copy(data: seq<byte>)
      requires Valid() && Room() >= |data|
      modifies this`off, orig
      ensures Valid() && Contents() == old(Contents()) + data
    {
      ghost var was := Contents();
      forall i | 0 <= i < |data| {
        orig[start + off + i] := data[i];
      }
      off := off + |data|;
      assert orig[start..start + |was|] == was;
      assert orig[start + |was|..start + off] == data;
    }

    // evbuffer_drain
    method Drain(len: nat)
      requires Valid()
      modifies this
      ensures Valid() && orig == old(orig)
      ensures Contents() == if len >= |old(Contents())| then [] else old(Contents())[len..]
    {
      if len >= off {
        off := 0;
        start := 0;
        misalign := 0;
      } else {
        start := start + len;
        misalign := misalign + len;
        off := off - len;
      }
    }

    // evbuffer_remove
    method Remove(datlen: nat) returns (data: seq<byte>)
      requires Valid()
      modifies this
      ensures Valid() && orig == old(orig)
      ensures data + Contents() == old(Contents())
      ensures |data| == if datlen >= |old(Contents())| then |old(Contents())| else datlen
    {
      var n := if datlen >= off then off else datlen;
      data := orig[start..start + n];
      Drain(n);
    }

    // evbuffer_add_buffer: the content moves from inbuf to this buffer.
    method AddBuffer(inbuf: Buffer, memory: bool) returns (ok: bool)
      requires Valid() && inbuf.Valid() && inbuf != this && inbuf.orig != orig
      modifies this, orig, inbuf
      ensures Valid() && inbuf.Valid() && inbuf.orig != orig
      ensures (orig == old(inbuf.orig) && inbuf.orig == old(orig)) ||
        (inbuf.orig == old(inbuf.orig) && (orig == old(orig) || fresh(orig)))
      ensures ok <==> old(off) == 0 || old(Room()) >= old(inbuf.off) || old(misalign) >= old(inbuf.off) || memory
      ensures ok ==> Contents() == old(Contents()) + old(inbuf.Contents()) && inbuf.Contents() == []
      ensures !ok ==> Contents() == old(Contents()) && inbuf.Contents() == old(inbuf.Contents())
    {
      if off == 0 {
        var orig', start', misalign', off', totallen' := orig, start, misalign, off, totallen;
        orig, start, misalign, off, totallen := inbuf.orig, inbuf.start, inbuf.misalign, inbuf.off, inbuf.totallen;
        inbuf.orig, inbuf.start, inbuf.misalign, inbuf.off, inbuf.totallen := orig', start', misalign', off', totallen';
        return true;
      }
      ghost var moved := inbuf.Contents();
      ok := Add(inbuf.orig[inbuf.start..inbuf.start + inbuf.off], memory);
      assert inbuf.Contents() == moved;
      if ok {
        inbuf.Drain(inbuf.off);
      }
    }

    // evbuffer_readline
    method ReadLine() returns (found: bool, line: seq<byte>)
      requires Valid()
      modifies this
      ensures Valid() && orig == old(orig)
      ensures found <==> LineEnd(old(Contents())) < |old(Contents())|
      ensures if found then
          line == old(Contents())[..LineEnd(old(Contents()))] &&
          Contents() == old(Contents())[LineNext(old(Contents()))..]
        else
          line == [] && Contents() == old(Contents())
    {
      var data := orig[start..start + off];
      var i := ScanLine(data);
      if i == |data| {
        return false, [];
      }
      line := data[..i];
      if i < |data| - 1 {
        if (data[i + 1] == CR || data[i + 1] == LF) && data[i + 1] != data[i] {
          i := i + 1;
        }
      }
      assert i + 1 == LineNext(data);
      Drain(i + 1);
      return true, line;
    }
  }
}
