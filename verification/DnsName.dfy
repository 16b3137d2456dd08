/**
  Names in DNS messages, evdns.c: dnsname_to_labels writes them with the compression of section
  4.1.4 of RFC 1035, name_parse reads them back.
*/
module DnsName {

  import opened Basics

  const DOT: byte := 46

  // ---------- what bytes spell ----------

  /** The labels with dots between them. */
  function Join(labels: seq<seq<byte>>): (r: seq<byte>)
  {
    if |labels| == 0 then []
    else if |labels| == 1 then labels[0]
    else labels[0] + [DOT] + Join(labels[1..])
  }

  function Target(hi: byte, lo: byte): int {
    (hi % 64) * 256 + lo
  }

  /**
    The labels at position `j` of the packet, following at most `k` pointers; None if the packet
    ends or the pointers run out first.
  */
  function ReadName(p: seq<byte>, j: int, k: int): (r: Option<seq<seq<byte>>>)
    requires 0 <= j
    decreases k, |p| - j
  {
    if j >= |p| then None
    else if p[j] == 0 then Some([])
    else if p[j] >= 64 then
      if j + 1 >= |p| || k <= 0 || Target(p[j], p[j + 1]) >= |p| then None
      else ReadName(p, Target(p[j], p[j + 1]), k - 1)
    else
      var next := j + 1 + p[j];
      if next > |p| then None
      else
        match ReadName(p, next, k)
        case None => None
        case Some(rest) => Some([p[j + 1..next]] + rest)
  }

  /** The position just after the name at `j`: after its first pointer or its terminator. */
  function EndOf(p: seq<byte>, j: int): (e: int)
    requires 0 <= j
    decreases |p| - j
  {
    if j >= |p| || p[j] == 0 then j + 1
    else if p[j] >= 64 then j + 2
    else EndOf(p, j + 1 + p[j])
  }

  /**
    What the bytes at `j` mean: nothing behind the end, a name that is over for 0, a label for 1 to 63,
    and a jump to the 14 low bits of two bytes for anything else.
  */
  lemma {:induction false} ReadsBytes(p: seq<byte>, j: nat, k: int)
    ensures j >= |p| ==> ReadName(p, j, k).None?
    ensures j < |p| && p[j] == 0 ==> ReadName(p, j, k) == Some([])
    ensures j < |p| && 1 <= p[j] <= 63 && j + 1 + p[j] > |p| ==> ReadName(p, j, k).None?
    ensures j < |p| && 1 <= p[j] <= 63 && j + 1 + p[j] <= |p| ==>
      var rest := ReadName(p, j + 1 + p[j], k);
      ReadName(p, j, k) == if rest.None? then None else Some([p[j + 1..][..p[j]]] + rest.value)
    ensures j < |p| && p[j] > 63 && (j + 1 == |p| || k <= 0) ==> ReadName(p, j, k).None?
    ensures j + 1 < |p| && p[j] > 63 && k > 0 ==>
      var t := (p[j] as int * 256 + p[j + 1] as int) % 0x4000;
      ReadName(p, j, k) == if t < |p| then ReadName(p, t, k - 1) else None
  {
    if j + 1 < |p| {
      LowBits(p[j], p[j + 1]);
    }
    if j < |p| && 1 <= p[j] <= 63 && j + 1 + p[j] <= |p| {
      assert p[j + 1..][..p[j]] == p[j + 1..j + 1 + p[j]];
    }
  }

  lemma LowBits(hi: byte, lo: byte)
    ensures Target(hi, lo) == (hi as int * 256 + lo as int) % 0x4000
  {
    assert hi as int * 256 + lo as int == (hi / 64) * 0x4000 + ((hi % 64) * 256 + lo);
  }

  /** The pointer to `t`, two one bits and then 14 bits, leads to `t`. */
  lemma {:induction false} PointerLeads(p: seq<byte>, j: nat, k: int, t: nat)
    requires j + 1 < |p| && p[j] as int * 256 + p[j + 1] as int == 0xC000 + t && t < 0x4000 && t < |p| && k > 0
    ensures ReadName(p, j, k) == ReadName(p, t, k - 1) && EndOf(p, j) == j + 2
  {
    ReadsBytes(p, j, k);
  }

  /** A name ends behind its first pointer or behind its zero. */
  lemma {:induction false} EndsAt(p: seq<byte>, j: nat)
    requires j < |p|
    ensures p[j] == 0 ==> EndOf(p, j) == j + 1
    ensures p[j] > 63 ==> EndOf(p, j) == j + 2
    ensures 1 <= p[j] <= 63 ==> EndOf(p, j) == EndOf(p, j + 1 + p[j])
  {
  }

  /** In text, labels are parted by a full stop, character 46. */
  lemma {:induction false} JoinsWithDots(a: seq<byte>, b: seq<byte>, rest: seq<seq<byte>>)
    ensures Join([]) == [] && Join([a]) == a
    ensures Join([a, b] + rest) == a + [46] + Join([b] + rest)
  {
    assert ([a, b] + rest)[1..] == [b] + rest;
  }

  lemma {:induction false} JoinAppend(a: seq<seq<byte>>, b: seq<seq<byte>>)
    requires a != [] && b != []
    ensures Join(a + b) == Join(a) + [DOT] + Join(b)
    decreases a
  {
    if |a| == 1 {
      assert (a + b)[1..] == b;
    } else {
      assert (a + b)[1..] == a[1..] + b;
      JoinAppend(a[1..], b);
    }
  }

  // ---------- reading ----------

  /** Copies one label behind the first `cp` bytes of `out`, with a dot in between; fails if the buffer is too small. */
  method PutLabel(out: array<byte>, cp0: nat, memory: seq<byte>, j: nat, labelLen: nat, ghost done: seq<seq<byte>>)
    returns (ok: bool, cp: nat)
    requires cp0 <= out.Length && j + labelLen <= |memory| && labelLen > 0
    requires out[..cp0] == Join(done) && (done == [] <==> cp0 == 0)
    modifies out
    ensures var longer := done + [memory[j..j + labelLen]];
      if ok then cp < out.Length && out[..cp] == Join(longer) && cp > cp0
      else |Join(longer)| >= out.Length
  {
    ghost var word := memory[j..j + labelLen];
    if done != [] {
      JoinAppend(done, [word]);
    } else {
      assert done + [word] == [word];
    }
    cp := cp0;
    if cp != 0 {
      if cp + 1 >= out.Length {
        return false, cp;
      }
      out[cp] := DOT;
      cp := cp + 1;
    }
    if cp + labelLen >= out.Length {
      return false, cp;
    }
    ghost var before := out[..cp];
    forall k | 0 <= k < labelLen {
      out[cp + k] := memory[j + k];
    }
    assert out[..cp + labelLen] == before + word;
    cp := cp + labelLen;
    ok := true;
  }

  /** Every label the packet spells, up to here, is a label of the whole name. */
  ghost predicate Underway(whole: Option<seq<seq<byte>>>, done: seq<seq<byte>>, rest: Option<seq<seq<byte>>>) {
    whole == Prepend(done, rest)
  }

  lemma {:induction false} TooLong(whole: Option<seq<seq<byte>>>, done: seq<seq<byte>>, rest: Option<seq<seq<byte>>>,
      room: int)
    requires Underway(whole, done, rest) && |Join(done)| >= room
    ensures whole.Some? ==> |Join(whole.value)| >= room
  {
    if whole.Some? && done != [] && rest.value != [] {
      JoinAppend(done, rest.value);
    } else if whole.Some? && rest.value == [] {
      assert done + [] == done;
    }
  }

  /**
    The state of name_parse: `done` has been copied, the rest is read at `j` with `k` jumps left, and
    `nameEnd` is the index behind the name once a pointer has been met.
  */
  ghost predicate Following(packet: seq<byte>, idx: nat, done: seq<seq<byte>>, j: int, k: int, nameEnd: int) {
    // A let expression keeps the verifier from splitting the state into its parts.
    var following := 0 <= j && Underway(ReadName(packet, idx, |packet|), done, ReadName(packet, j, k)) &&
                     if nameEnd < 0 then EndOf(packet, idx) == EndOf(packet, j) else nameEnd == EndOf(packet, idx);
    following
  }

  lemma {:induction false} FollowPointer(packet: seq<byte>, idx: nat, done: seq<seq<byte>>, j: int, k: int,
      nameEnd: int)
    requires Following(packet, idx, done, j, k, nameEnd) && j < |packet| && packet[j] >= 64
    ensures j + 1 >= |packet| || k <= 0 ==> ReadName(packet, idx, |packet|).None?
    ensures j + 1 < |packet| ==>
      var t := Target(packet[j], packet[j + 1]);
      if t < |packet| && k > 0 then Following(packet, idx, done, t, k - 1, if nameEnd < 0 then j + 2 else nameEnd)
      else ReadName(packet, idx, |packet|).None?
  {
  }

  /** One label further: what the packet spells there continues the name. */
  lemma {:induction false} FollowLabel(packet: seq<byte>, slack: seq<byte>, idx: nat, done: seq<seq<byte>>, j: int,
      k: int, nameEnd: int)
    requires |slack| >= 63 && Following(packet, idx, done, j, k, nameEnd) && j < |packet| && 0 < packet[j] < 64
    ensures Following(packet, idx, done + [(packet + slack)[j + 1..j + 1 + packet[j]]], j + 1 + packet[j], k, nameEnd)
  {
    var next := j + 1 + packet[j];
    var word := (packet + slack)[j + 1..next];
    if next <= |packet| {
      assert word == packet[j + 1..next];
      PrependLabel(done, word, ReadName(packet, next, k));
    }
  }

  lemma {:induction false} FollowEnd(packet: seq<byte>, idx: nat, done: seq<seq<byte>>, j: int, k: int, nameEnd: int)
    requires Following(packet, idx, done, j, k, nameEnd)
    ensures j >= |packet| ==> ReadName(packet, idx, |packet|).None?
    ensures j < |packet| && packet[j] == 0 ==>
      ReadName(packet, idx, |packet|) == Some(done) && EndOf(packet, idx) == if nameEnd < 0 then j + 1 else nameEnd
  {
    assert done + [] == done;
  }

  /** The part of name_parse that follows the pointer at `j`. */
  method Jump(packet: seq<byte>, ghost idx: nat, j0: nat, nameEnd0: int, ptrCount0: nat, ghost done: seq<seq<byte>>)
    returns (ok: bool, j: nat, nameEnd: int, ptrCount: nat)
    requires j0 < |packet| && packet[j0] >= 64 && ptrCount0 <= |packet|
    requires Following(packet, idx, done, j0, |packet| - ptrCount0, nameEnd0)
    ensures !ok ==> ReadName(packet, idx, |packet|).None?
    ensures ok ==> ptrCount == ptrCount0 + 1 <= |packet|
    ensures ok ==> Following(packet, idx, done, j, |packet| - ptrCount, nameEnd)
  {
    FollowPointer(packet, idx, done, j0, |packet| - ptrCount0, nameEnd0);
    var length := |packet|;
    j, nameEnd, ptrCount := j0 + 1, nameEnd0, ptrCount0;
    if j >= length {
      return false, j, nameEnd, ptrCount;
    }
    var ptrLow := packet[j];
    j := j + 1;
    if nameEnd < 0 {
      nameEnd := j;
    }
    j := Target(packet[j0], ptrLow);
    if j < 0 || j >= length {
      return false, j, nameEnd, ptrCount;
    }
    ptrCount := ptrCount + 1;
    if ptrCount > length {
      return false, j, nameEnd, ptrCount;
    }
    ok := true;
  }

  /** The part of name_parse that copies the label at `j`. */
  method TakeLabel(packet: seq<byte>, slack: seq<byte>, ghost idx: nat, out: array<byte>, j: nat, cp0: nat,
      ghost done0: seq<seq<byte>>, ghost k: int, ghost nameEnd: int)
    returns (ok: bool, cp: nat, ghost done: seq<seq<byte>>)
    requires |slack| >= 63 && j < |packet| && 0 < packet[j] < 64 && Following(packet, idx, done0, j, k, nameEnd)
    requires cp0 <= out.Length && out[..cp0] == Join(done0) && (done0 == [] <==> cp0 == 0)
    modifies out
    ensures ok ==> Following(packet, idx, done, j + 1 + packet[j], k, nameEnd)
    ensures ok ==> cp0 < cp < out.Length && out[..cp] == Join(done) && done != []
    ensures !ok ==> ReadName(packet, idx, |packet|).Some? ==>
      |Join(ReadName(packet, idx, |packet|).value)| >= out.Length
  {
    FollowLabel(packet, slack, idx, done0, j, k, nameEnd);
    done := done0 + [(packet + slack)[j + 1..j + 1 + packet[j]]];
    ok, cp := PutLabel(out, cp0, packet + slack, j + 1, packet[j], done0);
    if !ok {
      TooLong(ReadName(packet, idx, |packet|), done, ReadName(packet, j + 1 + packet[j], k), out.Length);
    }
  }

  /**
    name_parse: copies the name at `idx` into `out`, dots between the labels and a zero at the end.
    `slack` stands for the memory behind the packet, which a label that runs past the end may touch.
    Returns -1, or 0 and the index behind the name.
  */
  method NameParse(packet: seq<byte>, slack: seq<byte>, idx: nat, out: array<byte>) returns (ret: int, idx': int)
    requires |slack| >= 63
    modifies out
    ensures ret == 0 || ret == -1
    ensures ret == 0 <==>
      ReadName(packet, idx, |packet|).Some? && |Join(ReadName(packet, idx, |packet|).value)| < out.Length
    ensures ret == 0 ==>
      var name := Join(ReadName(packet, idx, |packet|).value);
      out[..|name|] == name && out[|name|] == 0 && idx' == EndOf(packet, idx)
    ensures ret == 0 ==> idx < idx' <= |packet|
  {
    var ok, end, cp;
    ghost var done;
    ok, end, cp, done := ReadLabels(packet, slack, idx, out);
    if !ok || cp >= out.Length {
      return -1, idx;
    }
    EndWithin(packet, idx, |packet|);
    out[cp] := 0;
    return 0, end;
  }

  /** The loop of name_parse. */
  method ReadLabels(packet: seq<byte>, slack: seq<byte>, idx: nat, out: array<byte>)
    returns (ok: bool, end: int, cp: nat, ghost done: seq<seq<byte>>)
    requires |slack| >= 63
    modifies out
    ensures ok ==> ReadName(packet, idx, |packet|) == Some(done) && end == EndOf(packet, idx)
    ensures ok ==> cp <= out.Length && out[..cp] == Join(done)
    ensures !ok ==> ReadName(packet, idx, |packet|).Some? ==>
      |Join(ReadName(packet, idx, |packet|).value)| >= out.Length
  {
    var length := |packet|;
    var nameEnd, j, ptrCount := -1, idx, 0;
    cp, done, ok, end := 0, [], false, 0;
    PrependNothing(ReadName(packet, idx, length));
    while true
      invariant 0 <= j && 0 <= ptrCount <= length && 0 <= cp <= out.Length && !ok
      invariant Following(packet, idx, done, j, length - ptrCount, nameEnd)
      invariant out[..cp] == Join(done) && (done == [] <==> cp == 0)
      decreases length - ptrCount, out.Length - cp
    {
      FollowEnd(packet, idx, done, j, length - ptrCount, nameEnd);
      if j >= length {
        return;
      }
      var labelLen := packet[j];
      j := j + 1;
      if labelLen == 0 {
        ok, end := true, if nameEnd < 0 then j else nameEnd;
        return;
      }
      if labelLen >= 64 {
        var jumped;
        jumped, j, nameEnd, ptrCount := Jump(packet, idx, j - 1, nameEnd, ptrCount, done);
        if !jumped {
          return;
        }
        continue;
      }
      var taken;
      taken, cp, done := TakeLabel(packet, slack, idx, out, j - 1, cp, done, length - ptrCount, nameEnd);
      if !taken {
        return;
      }
      j := j + labelLen;
    }
  }

  ghost function Prepend(done: seq<seq<byte>>, rest: Option<seq<seq<byte>>>): Option<seq<seq<byte>>> {
    match rest
    case None => None
    case Some(labels) => Some(done + labels)
  }

  lemma {:induction false} PrependNothing(r: Option<seq<seq<byte>>>)
    ensures Prepend([], r) == r
  {
    if r.Some? {
      assert [] + r.value == r.value;
    }
  }

  lemma {:induction false} PrependLabel(done: seq<seq<byte>>, word: seq<byte>, rest: Option<seq<seq<byte>>>)
    ensures Prepend(done, Prepend([word], rest)) == Prepend(done + [word], rest)
  {
    if rest.Some? {
      assert done + ([word] + rest.value) == done + [word] + rest.value;
    }
  }

  // ---------- names as text ----------

  /** strchr(name, '.'): the index of the first dot, or the length. */
  function FirstDot(name: seq<byte>): (i: nat)
    ensures i <= |name|
    ensures i < |name| ==> name[i] == DOT
  {
    if |name| == 0 || name[0] == DOT then 0 else 1 + FirstDot(name[1..])
  }

  /** The labels of a name; a final dot adds none. */
  function Labels(name: seq<byte>): seq<seq<byte>>
    decreases |name|
  {
    var i := FirstDot(name);
    if i < |name| then [name[..i]] + Labels(name[i + 1..])
    else if i == 0 then []
    else [name]
  }

  /** Every label is non-empty; one dot may end the name. */
  predicate WellFormed(name: seq<byte>)
    decreases |name|
  {
    var i := FirstDot(name);
    i < |name| ==> i > 0 && WellFormed(name[i + 1..])
  }

  /** No label is longer than 63 bytes. */
  predicate ShortLabels(name: seq<byte>)
    decreases |name|
  {
    var i := FirstDot(name);
    i <= 63 && (i < |name| ==> ShortLabels(name[i + 1..]))
  }

  /** A full stop among the 64 bytes at `a`. */
  ghost predicate Stop(name: seq<byte>, a: nat) {
    exists k {:trigger name[k]} :: a <= k < a + 64 && k < |name| && name[k] == 46
  }

  /** The labels are short enough if and only if no 64 bytes in a row are without a full stop. */
  lemma {:induction false} ShortRuns(name: seq<byte>)
    ensures ShortLabels(name) <==> forall a: nat | a + 64 <= |name| :: Stop(name, a)
    decreases |name|
  {
    var i := FirstDot(name);
    NoDotBefore(name);
    if i > 63 {
      assert !Stop(name, 0);
    } else if i < |name| {
      assert name[i] == 46;
      var tail := name[i + 1..];
      ShortRuns(tail);
      forall a: nat | a + 64 <= |tail|
        ensures Stop(tail, a) <==> Stop(name, a + i + 1)
      {
        StopBehind(name, i + 1, a);
      }
      forall a: nat | i < a && a + 64 <= |name|
        ensures Stop(tail, a - i - 1) <==> Stop(name, a)
      {
        StopBehind(name, i + 1, a - i - 1);
      }
    }
  }

  lemma {:induction false} StopBehind(name: seq<byte>, i: nat, a: nat)
    requires i <= |name|
    ensures Stop(name[i..], a) <==> Stop(name, a + i)
  {
    if Stop(name, a + i) {
      var k :| a + i <= k < a + i + 64 && k < |name| && name[k] == 46;
      assert name[i..][k - i] == 46;
    }
  }

  /** A name that can be written at all. */
  predicate Writable(name: seq<byte>) {
    |name| <= 255 && ShortLabels(name)
  }

  /** A C string. */
  predicate Text(name: seq<byte>) {
    forall k | 0 <= k < |name| :: name[k] != 0
  }

  function Stripped(name: seq<byte>): seq<byte> {
    if |name| > 0 && name[|name| - 1] == DOT then name[..|name| - 1] else name
  }

  lemma {:induction false} StrippedTail(head: seq<byte>, rest: seq<byte>)
    requires rest != []
    ensures Stripped(head + [DOT] + rest) == head + [DOT] + Stripped(rest)
  {
  }

  lemma {:induction false} LabelsExist(name: seq<byte>)
    requires name != []
    ensures Labels(name) != []
  {
    assert FirstDot(name) < |name| || FirstDot(name) > 0;
  }

  /** Joining the labels gives the name back, up to a final dot. */
  lemma NoDotBefore(name: seq<byte>)
    ensures forall k | 0 <= k < FirstDot(name) :: name[k] != DOT
  {
  }

  lemma {:induction false} JoinLabels(name: seq<byte>)
    requires WellFormed(name)
    ensures Join(Labels(name)) == Stripped(name)
    decreases |name|
  {
    var i := FirstDot(name);
    NoDotBefore(name);
    if i < |name| {
      var head, rest := name[..i], name[i + 1..];
      assert name == head + [DOT] + rest;
      if rest == [] {
        assert Labels(name) == [head];
      } else {
        LabelsExist(rest);
        JoinLabels(rest);
        StrippedTail(head, rest);
        JoinAppend([head], Labels(rest));
      }
    }
  }

  // ---------- spelling with backward pointers ----------

  /** The bytes at `j` spell `labels`; every pointer leads to a position below `lo`, and so on from there. */
  ghost predicate Spells(p: seq<byte>, lo: int, j: int, labels: seq<seq<byte>>)
    decreases lo, |p| - j
  {
    && 0 <= lo && 0 <= j < |p|
    && if p[j] == 0 then labels == []
       else if p[j] >= 64 then
         j + 1 < |p| && Target(p[j], p[j + 1]) < lo && Spells(p, Target(p[j], p[j + 1]), Target(p[j], p[j + 1]), labels)
       else
         var next := j + 1 + p[j];
         next <= |p| && labels != [] && labels[0] == p[j + 1..next] && Spells(p, lo, next, labels[1..])
  }

  /** What bytes spell does not depend on what is written behind them. */
  lemma {:induction false} SpellsExtended(p: seq<byte>, p': seq<byte>, lo: int, lo': int, j: int,
      labels: seq<seq<byte>>)
    requires Spells(p, lo, j, labels) && p <= p' && lo <= lo'
    ensures Spells(p', lo', j, labels)
    decreases lo, |p| - j
  {
    if p[j] >= 64 {
      var t := Target(p[j], p[j + 1]);
      SpellsExtended(p, p', t, t, t, labels);
    } else if p[j] != 0 {
      SpellsExtended(p, p', lo, lo', j + 1 + p[j], labels[1..]);
    }
  }

  /** Backward pointers cannot run out: each jump lowers the bound. */
  lemma {:induction false} SpellsReads(p: seq<byte>, lo: int, j: int, labels: seq<seq<byte>>, k: int)
    requires Spells(p, lo, j, labels) && lo <= k
    ensures ReadName(p, j, k) == Some(labels)
    decreases lo, |p| - j
  {
    if p[j] >= 64 {
      var t := Target(p[j], p[j + 1]);
      SpellsReads(p, t, t, labels, k - 1);
    } else if p[j] != 0 {
      SpellsReads(p, lo, j + 1 + p[j], labels[1..], k);
      assert labels == [labels[0]] + labels[1..];
    }
  }

  /** The label of the first `i` bytes of `name` stands at `pos`. */
  ghost predicate LabelAt(p: seq<byte>, pos: int, name: seq<byte>, i: int) {
    // A let expression keeps the verifier from splitting the place into parts.
    var there := 0 <= pos && i == FirstDot(name) < |name| && i <= 63 && pos + 1 + i <= |p| && p[pos] == i &&
                 p[pos + 1..pos + 1 + i] == name[..i];
    there
  }

  /** From `pos` to `j` the bytes hold the labels of `name` up to `rest`, one after the other. */
  ghost predicate Leads(p: seq<byte>, pos: int, name: seq<byte>, j: int, rest: seq<byte>)
    decreases |name|
  {
    // A let expression keeps the verifier from splitting the path into parts.
    var leads :=
      && 0 <= pos <= j <= |p|
      && if pos == j then name == rest
         else
           var i := FirstDot(name);
           && i < |name| && LabelAt(p, pos, name, i) && pos + 1 + i <= j
           && Leads(p, pos + 1 + i, name[i + 1..], j, rest);
    leads
  }

  lemma {:induction false} LabelExtended(p: seq<byte>, p': seq<byte>, pos: int, name: seq<byte>, i: int)
    requires LabelAt(p, pos, name, i) && p <= p'
    ensures LabelAt(p', pos, name, i)
  {
    assert p'[pos + 1..pos + 1 + i] == p[pos + 1..pos + 1 + i];
  }

  /** The first label of `name` stands at `pos`, and `tail` is what is left of the name behind it. */
  ghost predicate StepAt(p: seq<byte>, pos: int, name: seq<byte>, i: int, tail: seq<byte>) {
    // A let expression keeps the verifier from splitting the step into parts.
    var there := LabelAt(p, pos, name, i) && tail == name[i + 1..] && 0 <= i;
    there
  }

  lemma {:induction false} StepExtended(p: seq<byte>, p': seq<byte>, pos: int, name: seq<byte>, i: int, tail: seq<byte>)
    requires StepAt(p, pos, name, i, tail) && p <= p'
    ensures StepAt(p', pos, name, i, tail)
  {
    LabelExtended(p, p', pos, name, i);
  }

  lemma {:induction false} LeadsUncons(p: seq<byte>, pos: int, name: seq<byte>, j: int, rest: seq<byte>)
    returns (i: nat, tail: seq<byte>)
    requires Leads(p, pos, name, j, rest) && pos != j
    ensures StepAt(p, pos, name, i, tail) && |tail| < |name| && Leads(p, pos + 1 + i, tail, j, rest)
  {
    i := FirstDot(name);
    tail := name[i + 1..];
  }

  lemma {:induction false} LeadsCons(p: seq<byte>, pos: int, name: seq<byte>, i: nat, tail: seq<byte>, j: int,
      rest: seq<byte>)
    requires StepAt(p, pos, name, i, tail) && Leads(p, pos + 1 + i, tail, j, rest)
    ensures Leads(p, pos, name, j, rest)
  {
  }

  lemma {:induction false} LeadsOne(p: seq<byte>, j: int, rest: seq<byte>, i: int)
    requires LabelAt(p, j, rest, i)
    ensures i < |rest| && Leads(p, j, rest, j + 1 + i, rest[i + 1..])
  {
    LeadsCons(p, j, rest, i, rest[i + 1..], j + 1 + i, rest[i + 1..]);
  }

  lemma {:induction false} LeadsExtended(p: seq<byte>, p': seq<byte>, pos: int, name: seq<byte>, j: int,
      rest: seq<byte>)
    requires Leads(p, pos, name, j, rest) && p <= p'
    ensures Leads(p', pos, name, j, rest)
    decreases |name|
  {
    if pos != j {
      var i, tail := LeadsUncons(p, pos, name, j, rest);
      LeadsExtended(p, p', pos + 1 + i, tail, j, rest);
      StepExtended(p, p', pos, name, i, tail);
      LeadsCons(p', pos, name, i, tail, j, rest);
    }
  }

  /** What every step carries backwards holds of the name if it holds of the rest. */
  lemma {:induction false} LeadsBack(p: seq<byte>, pos: int, name: seq<byte>, j: int, rest: seq<byte>,
      holds: (int, seq<byte>) -> bool)
    requires Leads(p, pos, name, j, rest) && holds(j, rest)
    requires forall k: int, w, i: nat, tail {:trigger StepAt(p, k, w, i, tail)} ::
      StepAt(p, k, w, i, tail) && holds(k + 1 + i, tail) ==> holds(k, w)
    ensures holds(pos, name)
    decreases |name|
  {
    if pos != j {
      var i, tail := LeadsUncons(p, pos, name, j, rest);
      LeadsBack(p, pos + 1 + i, tail, j, rest, holds);
    }
  }

  /** What leads up to `rest` leads up to `last` once the bytes from `j` to `j'` do. */
  lemma {:induction false} LeadsOn(p: seq<byte>, pos: int, name: seq<byte>, j: int, rest: seq<byte>, j': int,
      last: seq<byte>)
    requires Leads(p, pos, name, j, rest) && Leads(p, j, rest, j', last)
    ensures Leads(p, pos, name, j', last)
  {
    forall k: int, w, i: nat, tail | StepAt(p, k, w, i, tail) && Leads(p, k + 1 + i, tail, j', last)
      ensures Leads(p, k, w, j', last)
    {
      LeadsCons(p, k, w, i, tail, j', last);
    }
    LeadsBack(p, pos, name, j, rest, (k, w) => Leads(p, k, w, j', last));
  }

  lemma {:induction false} StepSpells(p: seq<byte>, lo: int, pos: int, name: seq<byte>, i: nat, tail: seq<byte>)
    requires StepAt(p, pos, name, i, tail) && WellFormed(name)
    ensures WellFormed(tail)
    ensures Spells(p, lo, pos + 1 + i, Labels(tail)) ==> Spells(p, lo, pos, Labels(name))
    ensures EndOf(p, pos) == EndOf(p, pos + 1 + i)
  {
    assert Labels(name)[1..] == Labels(tail);
  }

  /** Once the rest is spelled, so is the name, and both end at the same place. */
  lemma {:induction false} LeadsSpells(p: seq<byte>, p': seq<byte>, lo: int, pos: int, name: seq<byte>, j: int,
      rest: seq<byte>)
    requires Leads(p, pos, name, j, rest) && p <= p'
    requires WellFormed(rest) ==> Spells(p', lo, j, Labels(rest))
    requires WellFormed(name)
    ensures Spells(p', lo, pos, Labels(name)) && EndOf(p', pos) == EndOf(p', j)
    decreases |name|
  {
    if pos != j {
      var i, tail := LeadsUncons(p, pos, name, j, rest);
      StepExtended(p, p', pos, name, i, tail);
      StepSpells(p', lo, pos, name, i, tail);
      LeadsSpells(p, p', lo, pos + 1 + i, tail, j, rest);
    }
  }

  // ---------- writing ----------

  const MAX_LABELS := 128

  datatype LabelEntry = LabelEntry(v: seq<byte>, pos: int)

  /** Each of the first `n` names of the table that is well-formed is spelled at its position in `p`, and all
      positions lie in `p`. */
  ghost predicate SoundUpTo(labels: seq<LabelEntry>, n: int, p: seq<byte>) {
    n <= |labels| && forall i {:trigger labels[i]} | 0 <= i < n ::
      && 0 <= labels[i].pos < |p|
      && (WellFormed(labels[i].v) ==> Spells(p, labels[i].pos, labels[i].pos, Labels(labels[i].v)))
  }

  ghost predicate Sound(labels: seq<LabelEntry>, p: seq<byte>) {
    SoundUpTo(labels, |labels|, p)
  }

  /** struct dnslabel_table: the names written so far and where they start. */
  class LabelTable {
    var labels: seq<LabelEntry>

    constructor ()
      ensures labels == []
    {
      labels := [];
    }

    /** dnslabel_table_get_pos. */
    method GetPos(name: seq<byte>) returns (pos: int, ghost at: int)
      ensures pos != -1 ==> 0 <= at < |labels| && labels[at] == LabelEntry(name, pos)
      ensures (forall i | 0 <= i < |labels| :: labels[i].pos >= 0) ==>
        (pos == -1 <==> forall i | 0 <= i < |labels| :: labels[i].v != name)
    {
      at := -1;
      for i := 0 to |labels|
        invariant forall k | 0 <= k < i :: labels[k].v != name
      {
        if labels[i].v == name {
          return labels[i].pos, i;
        }
      }
      return -1, -1;
    }

    /** dnslabel_table_add; a full table remembers nothing more. */
    method Add(name: seq<byte>, pos: int) returns (ret: int)
      modifies this
      ensures labels == if |old(labels)| == MAX_LABELS then old(labels) else old(labels) + [LabelEntry(name, pos)]
      ensures ret == if |old(labels)| == MAX_LABELS then -1 else 0
    {
      if |labels| == MAX_LABELS {
        return -1;
      }
      labels := labels + [LabelEntry(name, pos)];
      return 0;
    }
  }

  /**
    The state of dnsname_to_labels between two labels: the buffer held `p0` before the call and holds
    `p` now, `name0` began at the end of `p0` and `name` is still to come.  The first `n0` entries of
    the table are older than the call.
  */
  ghost predicate Writing(labels: seq<LabelEntry>, n0: nat, p0: seq<byte>, p: seq<byte>, name0: seq<byte>,
      name: seq<byte>) {
    // A let expression keeps the verifier from splitting this into parts.
    var writing :=
      && p0 <= p && Leads(p, |p0|, name0, |p|, name)
      && SoundUpTo(labels, n0, p0)
      && forall i {:trigger labels[i]} | n0 <= i < |labels| ::
           && |p0| <= labels[i].pos < |p| && |labels[i].v| > |name|
           && Leads(p, labels[i].pos, labels[i].v, |p|, name);
    writing
  }

  /** The table after an attempt to remember `name` at `pos`. */
  ghost predicate Remembered(labels: seq<LabelEntry>, labels': seq<LabelEntry>, name: seq<byte>, pos: int) {
    labels' == labels || labels' == labels + [LabelEntry(name, pos)]
  }

  /** A name that led up to `name` leads up to the rest once the next label is written. */
  lemma {:induction false} LeadsFurther(p: seq<byte>, p': seq<byte>, pos: int, v: seq<byte>, name: seq<byte>)
    requires Leads(p, pos, v, |p|, name)
    requires var i := FirstDot(name); i < |name| && i <= 63 && p' == p + [i] + name[..i]
    ensures Leads(p', pos, v, |p'|, name[FirstDot(name) + 1..])
  {
    var i := FirstDot(name);
    assert p'[|p| + 1..|p| + 1 + i] == name[..i];
    LeadsOne(p', |p|, name, i);
    LeadsExtended(p, p', pos, v, |p|, name);
    LeadsOn(p', pos, v, |p|, name, |p'|, name[i + 1..]);
  }

  lemma {:induction false} WriteStep(labels: seq<LabelEntry>, labels': seq<LabelEntry>, n0: nat, p0: seq<byte>,
      p: seq<byte>, p': seq<byte>, name0: seq<byte>, name: seq<byte>)
    requires Writing(labels, n0, p0, p, name0, name) && Remembered(labels, labels', name, |p|)
    requires var i := FirstDot(name); i < |name| && i <= 63 && p' == p + [i] + name[..i]
    ensures Writing(labels', n0, p0, p', name0, name[FirstDot(name) + 1..])
  {
    LeadsFurther(p, p', |p0|, name0, name);
    forall k | n0 <= k < |labels'|
      ensures Leads(p', labels'[k].pos, labels'[k].v, |p'|, name[FirstDot(name) + 1..])
    {
      if k < |labels| {
        LeadsFurther(p, p', labels[k].pos, labels[k].v, name);
      } else {
        assert Leads(p, |p|, name, |p|, name);
        LeadsFurther(p, p', |p|, name, name);
      }
    }
  }

  /** When the last piece is in place, the old entries, the new ones and the name itself are spelled. */
  lemma {:induction false} WriteEnd(labels: seq<LabelEntry>, labels': seq<LabelEntry>, n0: nat, p0: seq<byte>,
      p: seq<byte>, p': seq<byte>, name0: seq<byte>, name: seq<byte>)
    requires Writing(labels, n0, p0, p, name0, name) && Remembered(labels, labels', name, |p|)
    requires p <= p' && |p| < |p'| &&
      (WellFormed(name) ==> Spells(p', |p0|, |p|, Labels(name)) && EndOf(p', |p|) == |p'|)
    ensures Written(labels', p', |p0|, name0)
  {
    var j0 := |p0|;
    if WellFormed(name0) {
      LeadsWellFormed(p, j0, name0, |p|, name);
      LeadsSpells(p, p', j0, j0, name0, |p|, name);
    }
    forall k | 0 <= k < |labels'|
      ensures 0 <= labels'[k].pos < |p'|
      ensures WellFormed(labels'[k].v) ==> Spells(p', labels'[k].pos, labels'[k].pos, Labels(labels'[k].v))
    {
      var e := labels'[k];
      if WellFormed(e.v) {
        if k < n0 {
          assert e == labels[k];
          SpellsExtended(p0, p', e.pos, e.pos, e.pos, Labels(e.v));
        } else {
          if k < |labels| {
            assert e == labels[k];
            LeadsSpells(p, p', j0, e.pos, e.v, |p|, name);
          }
          SpellsExtended(p', p', j0, e.pos, e.pos, Labels(e.v));
        }
      }
    }
  }

  /** What a finished call promises about the bytes `p` it leaves in the buffer. */
  ghost predicate Written(labels: seq<LabelEntry>, p: seq<byte>, j0: nat, name0: seq<byte>) {
    // A let expression keeps the verifier from splitting this into parts.
    var written := Sound(labels, p) && (WellFormed(name0) ==> Spells(p, j0, j0, Labels(name0)) && EndOf(p, j0) == |p|);
    written
  }

  lemma {:induction false} LeadsWellFormed(p: seq<byte>, pos: int, name: seq<byte>, j: int, rest: seq<byte>)
    requires Leads(p, pos, name, j, rest) && WellFormed(name)
    ensures WellFormed(rest)
    decreases |name|
  {
    if pos != j {
      var i := FirstDot(name);
      LeadsWellFormed(p, pos + 1 + i, name[i + 1..], j, rest);
    }
  }

  /** A length byte and the label behind it. */
  method WriteLabel(buf: array<byte>, j: nat, word: seq<byte>)
    requires j + 1 + |word| <= buf.Length && |word| <= 63
    modifies buf
    ensures buf[..j + 1 + |word|] == old(buf[..j]) + [|word|] + word
  {
    buf[j] := |word|;
    forall k | 0 <= k < |word| {
      buf[j + 1 + k] := word[k];
    }
  }

  /** The last label of a name, with its terminator: it is spelled as it stands. */
  lemma {:induction false} LastLabel(p: seq<byte>, p': seq<byte>, lo: int, name: seq<byte>)
    requires 0 <= lo && FirstDot(name) == |name| <= 63 && Text(name)
    requires p' == p + [|name|] + name + (if name == [] then [] else [0])
    ensures Spells(p', lo, |p|, Labels(name)) && EndOf(p', |p|) == |p'|
  {
    if name != [] {
      var next := |p| + 1 + |name|;
      assert p'[|p|] == |name| && p'[|p| + 1..next] == name && p'[next] == 0;
      assert Spells(p', lo, next, []);
      assert Labels(name)[1..] == [];
    }
  }

  /** The two bytes of ref | 0xc000 in network order. */
  function Pointer(pos: nat): (w: seq<byte>)
    requires pos < 0x4000
    ensures |w| == 2 && w[0] >= 64 && Target(w[0], w[1]) == pos
  {
    [0xc0 + pos / 256, pos % 256]
  }

  /** A pointer to a name that is already spelled. */
  lemma {:induction false} PointerSpells(p0: seq<byte>, p: seq<byte>, p': seq<byte>, pos: int, labels: seq<seq<byte>>)
    requires 0 <= pos < |p0| && p0 <= p && pos < 0x4000 && Spells(p0, pos, pos, labels)
    requires p' == p + Pointer(pos)
    ensures Spells(p', |p0|, |p|, labels) && EndOf(p', |p|) == |p'|
  {
    SpellsExtended(p0, p', pos, pos, pos, labels);
    assert p'[|p|] == Pointer(pos)[0] && p'[|p| + 1] == Pointer(pos)[1];
  }

  ghost function Known(table: LabelTable?): seq<LabelEntry>
    reads table
  {
    if table == null then [] else table.labels
  }

  /** dnslabel_table_add, if there is a table. */
  method Remember(table: LabelTable?, name: seq<byte>, pos: int)
    modifies table
    ensures Remembered(old(Known(table)), Known(table), name, pos)
    ensures table != null && |old(Known(table))| <= 128 ==>
      Known(table) == Capped(old(Known(table)) + [LabelEntry(name, pos)])
  {
    if table != null {
      var added := table.Add(name, pos);
    }
  }

  /** dnslabel_table_get_pos, if there is a table: only entries older than this call can match. */
  method LookUp(table: LabelTable?, name: seq<byte>, ghost n0: nat, ghost p0: seq<byte>, ghost p: seq<byte>,
      ghost name0: seq<byte>)
    returns (pos: int)
    requires Writing(Known(table), n0, p0, p, name0, name)
    ensures pos >= 0 ==> table != null
    ensures if pos >= 0 then LabelEntry(name, pos) in Known(table)[..n0] else !Listed(name, Known(table)[..n0])
    ensures pos >= 0 ==> pos < |p0| && (WellFormed(name) ==> Spells(p0, pos, pos, Labels(name)))
  {
    pos := -1;
    if table != null {
      ghost var at;
      pos, at := table.GetPos(name);
      if pos >= 0 {
        assert Known(table)[..n0][at] == LabelEntry(name, pos);
      }
    }
  }

  /** APPEND16(ref | 0xc000). */
  method WritePointer(buf: array<byte>, j: nat, pos: nat, ghost p: seq<byte>, ghost j0: nat)
    returns (ghost p': seq<byte>)
    requires j + 2 <= buf.Length && pos < 0x4000 && p == buf[..j] && j0 <= j
    modifies buf
    ensures p' == buf[..j + 2] == p + Pointer(pos) && buf[..j0] == old(buf[..j0])
  {
    buf[j] := Pointer(pos)[0];
    buf[j + 1] := Pointer(pos)[1];
    p' := buf[..j + 2];
  }

  lemma {:induction false} PointerWritten(labels: seq<LabelEntry>, n0: nat, p0: seq<byte>, p: seq<byte>,
      p': seq<byte>, name0: seq<byte>, name: seq<byte>, pos: nat)
    requires Writing(labels, n0, p0, p, name0, name) && pos < |p0| && pos < 0x4000
    requires WellFormed(name) ==> Spells(p0, pos, pos, Labels(name))
    requires p' == p + Pointer(pos)
    ensures Written(labels, p', |p0|, name0)
  {
    if WellFormed(name) {
      PointerSpells(p0, p, p', pos, Labels(name));
    }
    WriteEnd(labels, labels, n0, p0, p, p', name0, name);
  }

  lemma {:induction false} LastWritten(labels: seq<LabelEntry>, labels': seq<LabelEntry>, n0: nat, p0: seq<byte>,
      p: seq<byte>, p': seq<byte>, name0: seq<byte>, name: seq<byte>)
    requires Writing(labels, n0, p0, p, name0, name) && Remembered(labels, labels', name, |p|)
    requires FirstDot(name) == |name| <= 63 && Text(name)
    requires p' == p + [|name|] + name + (if name == [] then [] else [0])
    ensures Written(labels', p', |p0|, name0)
  {
    LastLabel(p, p', |p0|, name);
    WriteEnd(labels, labels', n0, p0, p, p', name0, name);
  }

  /** The last label and, if it is not empty, the terminator. */
  method WriteTerminated(buf: array<byte>, j: nat, name: seq<byte>, ghost p: seq<byte>, ghost j0: nat)
    returns (r: nat, ghost p': seq<byte>)
    requires j + 1 + |name| < buf.Length && |name| <= 63 && Text(name) && p == buf[..j] && j0 <= j
    modifies buf
    ensures r == j + 1 + |name| + (if name == [] then 0 else 1)
    ensures p' == buf[..r] == p + [|name|] + name + (if name == [] then [] else [0]) && buf[..j0] == old(buf[..j0])
  {
    WriteLabel(buf, j, name);
    r := j + 1 + |name|;
    assert buf[r - 1] == buf[..r][r - 1];
    if buf[r - 1] != 0 {
      buf[r] := 0;
      r := r + 1;
    }
    p' := buf[..r];
    assert buf[..j0] == p'[..j0] == p[..j0];
  }

  // ---------- the bytes of a name ----------

  ghost predicate Listed(name: seq<byte>, known: seq<LabelEntry>) {
    exists i {:trigger known[i]} :: 0 <= i < |known| && known[i].v == name
  }

  /**
    The bytes of a name, given the entries the table had before: a name in the table is two one bits and
    the 14 bits of a position where it stands; of any other one the first label is written with its
    length in front, and then the rest, or a zero if nothing is left.
  */
  ghost predicate Wire(bytes: seq<byte>, name: seq<byte>, known: seq<LabelEntry>)
    decreases |name|
  {
    // A let expression keeps the verifier from splitting this into parts.
    var wire :=
      if Listed(name, known) then
        |bytes| == 2 && LabelEntry(name, bytes[0] as int * 256 + bytes[1] as int - 0xC000) in known
      else
        var i := FirstDot(name);
        && |bytes| > i && bytes[0] == i && bytes[1..i + 1] == name[..i]
        && if i < |name| then Wire(bytes[i + 1..], name[i + 1..], known)
           else bytes[i + 1..] == if name == [] then [] else [0];
    wire
  }

  /** The entries for the name and its ends, as far as they were not in the table, where they stand. */
  ghost function NewEntries(name: seq<byte>, j: nat, known: seq<LabelEntry>): seq<LabelEntry>
    decreases |name|
  {
    if Listed(name, known) then []
    else if FirstDot(name) == |name| then [LabelEntry(name, j)]
    else [LabelEntry(name, j)] + NewEntries(name[FirstDot(name) + 1..], j + 1 + FirstDot(name), known)
  }

  /** No name has two entries. */
  ghost predicate Distinct(labels: seq<LabelEntry>) {
    forall a, b | 0 <= a < b < |labels| :: labels[a].v != labels[b].v
  }

  /** Distinct names of at most `n` bytes, none of them known. */
  ghost predicate AllNew(entries: seq<LabelEntry>, n: nat, known: seq<LabelEntry>) {
    Distinct(entries) && forall k | 0 <= k < |entries| :: !Listed(entries[k].v, known) && |entries[k].v| <= n
  }

  lemma {:induction false} OneMore(e: LabelEntry, entries: seq<LabelEntry>, n: nat, known: seq<LabelEntry>)
    requires AllNew(entries, n, known) && !Listed(e.v, known) && n < |e.v|
    ensures AllNew([e] + entries, |e.v|, known)
  {
  }

  lemma {:induction false} NewOnes(name: seq<byte>, j: nat, known: seq<LabelEntry>)
    ensures AllNew(NewEntries(name, j, known), |name|, known)
    decreases |name|
  {
    if !Listed(name, known) && FirstDot(name) < |name| {
      var tail := name[FirstDot(name) + 1..];
      var rest := NewEntries(tail, j + 1 + FirstDot(name), known);
      NewEntriesNext(name, j, known);
      NewOnes(tail, j + 1 + FirstDot(name), known);
      OneMore(LabelEntry(name, j), rest, |tail|, known);
    }
  }

  /** Writing a name keeps the entries distinct. */
  lemma {:induction false} NewEntriesDistinct(name: seq<byte>, j: nat, known: seq<LabelEntry>)
    requires Distinct(known)
    ensures Distinct(Capped(known + NewEntries(name, j, known)))
  {
    NewOnes(name, j, known);
    var more := NewEntries(name, j, known);
    forall a, b | 0 <= a < b < |known + more|
      ensures (known + more)[a].v != (known + more)[b].v
    {
      if a < |known| <= b {
        assert (known + more)[b] == more[b - |known|];
        assert !Listed(more[b - |known|].v, known);
      }
    }
  }

  /** A name that has an entry is written as two bytes: two one bits and the entry's position. */
  lemma {:induction false} RepeatedName(bytes: seq<byte>, entry: LabelEntry, known: seq<LabelEntry>)
    requires Distinct(known) && entry in known && Wire(bytes, entry.v, known)
    ensures |bytes| == 2 && bytes[0] as int * 256 + bytes[1] as int == 0xC000 + entry.pos
  {
    var i :| 0 <= i < |known| && known[i] == entry;
    var e := LabelEntry(entry.v, bytes[0] as int * 256 + bytes[1] as int - 0xC000);
    var k :| 0 <= k < |known| && known[k] == e;
  }

  /** A table holds at most 128 entries. */
  function Capped(labels: seq<LabelEntry>): seq<LabelEntry> {
    if |labels| <= 128 then labels else labels[..128]
  }

  lemma {:induction false} CappedTwice(a: seq<LabelEntry>, b: seq<LabelEntry>)
    ensures Capped(Capped(a) + b) == Capped(a + b)
  {
  }

  /** So far `done` has been written of `name0`, and `name` is still to come. */
  ghost predicate WireOn(done: seq<byte>, name0: seq<byte>, name: seq<byte>, known: seq<LabelEntry>) {
    forall rest {:trigger done + rest} :: Wire(rest, name, known) ==> Wire(done + rest, name0, known)
  }

  lemma {:induction false} WireStart(name: seq<byte>, known: seq<LabelEntry>)
    ensures WireOn([], name, name, known)
  {
    forall rest
      ensures Wire(rest, name, known) ==> Wire([] + rest, name, known)
    {
      assert [] + rest == rest;
    }
  }

  lemma {:induction false} WireLabel(word: seq<byte>, rest: seq<byte>, name: seq<byte>, known: seq<LabelEntry>)
    requires !Listed(name, known) && FirstDot(name) < |name| && word == name[..FirstDot(name)] && |word| <= 63
    requires Wire(rest, name[FirstDot(name) + 1..], known)
    ensures Wire([|word|] + word + rest, name, known)
  {
    var bytes := [|word|] + word + rest;
    assert bytes[1..|word| + 1] == word && bytes[|word| + 1..] == rest;
  }

  lemma {:induction false} WireBehind(done: seq<byte>, rest: seq<byte>, name0: seq<byte>, name: seq<byte>,
      known: seq<LabelEntry>)
    requires WireOn(done, name0, name, known) && Wire(rest, name, known)
    ensures Wire(done + rest, name0, known)
  {
  }

  lemma {:induction false} Regroup(a: seq<byte>, b: seq<byte>, c: seq<byte>)
    ensures a + b + c == a + (b + c)
  {
  }

  lemma {:induction false} WireNext(done: seq<byte>, name0: seq<byte>, name: seq<byte>, word: seq<byte>,
      known: seq<LabelEntry>)
    requires WireOn(done, name0, name, known) && !Listed(name, known)
    requires FirstDot(name) < |name| && word == name[..FirstDot(name)] && |word| <= 63
    ensures WireOn(done + ([|word|] + word), name0, name[FirstDot(name) + 1..], known)
  {
    var piece, tail := [|word|] + word, name[FirstDot(name) + 1..];
    forall rest: seq<byte> | Wire(rest, tail, known)
      ensures Wire(done + piece + rest, name0, known)
    {
      WireLabel(word, rest, name, known);
      WireBehind(done, piece + rest, name0, name, known);
      Regroup(done, piece, rest);
    }
  }

  lemma {:induction false} WireLast(name: seq<byte>, known: seq<LabelEntry>)
    requires !Listed(name, known) && FirstDot(name) == |name| <= 63
    ensures Wire([|name|] + name + (if name == [] then [] else [0]), name, known)
  {
    var bytes := [|name|] + name + (if name == [] then [] else [0]);
    assert bytes[1..|name| + 1] == name && bytes[|name| + 1..] == if name == [] then [] else [0];
  }

  lemma {:induction false} WirePointer(pos: nat, name: seq<byte>, known: seq<LabelEntry>)
    requires pos < 0x4000 && LabelEntry(name, pos) in known
    ensures Wire(Pointer(pos), name, known)
  {
    var i :| 0 <= i < |known| && known[i] == LabelEntry(name, pos);
    assert known[i].v == name;
    assert Pointer(pos)[0] as int * 256 + Pointer(pos)[1] as int == 0xC000 + pos;
  }

  /** The outcome of one turn: an error, the end of the name, or one label more. */
  datatype Turn = Failed(code: int) | Finished(end: nat) | Next(j: nat, name: seq<byte>)

  /** What one turn leaves in the buffer, from the name at `j` on. */
  ghost predicate Turned(turn: Turn, bytes: seq<byte>, bufLen: nat, j: nat, name: seq<byte>, labels: seq<LabelEntry>,
      n0: nat, p0: seq<byte>, name0: seq<byte>) {
    // A let expression keeps the verifier from splitting this into parts.
    var turned := bufLen < |bytes| && p0 <= bytes &&
      match turn
      case Failed(code) => code == -1 || code == -2
      case Finished(end) => j < end <= bufLen + 1 && Written(labels, bytes[..end], |p0|, name0)
      case Next(j', name') =>
        j < j' <= bufLen && Text(name') && |name'| < |name| && Writing(labels, n0, p0, bytes[..j'], name0, name');
    turned
  }

  /** Why it fails and how far it comes; there are pointers only with a table. */
  ghost predicate Measured(turn: Turn, bufLen: nat, j: nat, name: seq<byte>, pointers: bool) {
    // A let expression keeps the verifier from splitting this into parts.
    var measured :=
      match turn
      case Failed(_) => !ShortLabels(name) || j + |name| + (if pointers then 2 else 1) > bufLen
      case Finished(end) =>
        end <= j + |name| + 2 && (!pointers ==> ShortLabels(name) && j + |name| + 1 <= bufLen)
      case Next(j', name') => j' + |name'| == j + |name| && (ShortLabels(name') <==> ShortLabels(name));
    measured
  }

  /** The table once the rest of the name has been written, too. */
  ghost function Entered(labels: seq<LabelEntry>, name: seq<byte>, j: nat, known: seq<LabelEntry>): seq<LabelEntry> {
    Capped(labels + NewEntries(name, j, known))
  }

  lemma {:induction false} NewEntriesNext(name: seq<byte>, j: nat, known: seq<LabelEntry>)
    requires !Listed(name, known) && FirstDot(name) < |name|
    ensures NewEntries(name, j, known) ==
      [LabelEntry(name, j)] + NewEntries(name[FirstDot(name) + 1..], j + 1 + FirstDot(name), known)
  {
  }

  lemma {:induction false} EnteredNext(labels: seq<LabelEntry>, name: seq<byte>, j: nat, tail: seq<byte>, k: nat,
      known: seq<LabelEntry>)
    requires !Listed(name, known) && FirstDot(name) < |name|
    requires tail == name[FirstDot(name) + 1..] && k == j + 1 + FirstDot(name)
    ensures Entered(Capped(labels + [LabelEntry(name, j)]), tail, k, known) == Entered(labels, name, j, known)
  {
    NewEntriesNext(name, j, known);
    CappedFurther(labels, LabelEntry(name, j), NewEntries(tail, k, known));
  }

  lemma {:induction false} CappedFurther(a: seq<LabelEntry>, e: LabelEntry, b: seq<LabelEntry>)
    ensures Capped(Capped(a + [e]) + b) == Capped(a + ([e] + b))
  {
    CappedTwice(a + [e], b);
    assert a + [e] + b == a + ([e] + b);
  }

  /** The bytes from `j0` on when the name is finished, or goes on. */
  lemma {:induction false} WireEnds(done: seq<byte>, bytes: seq<byte>, j0: nat, end: nat, name0: seq<byte>,
      name: seq<byte>, known: seq<LabelEntry>)
    requires j0 <= |done| <= end <= |bytes| && done <= bytes
    requires WireOn(done[j0..], name0, name, known) && Wire(bytes[|done|..end], name, known)
    ensures Wire(bytes[j0..end], name0, known)
  {
    assert bytes[j0..end] == done[j0..] + bytes[|done|..end];
  }

  lemma {:induction false} WireGoesOn(done: seq<byte>, bytes: seq<byte>, j0: nat, j: nat, name0: seq<byte>,
      name: seq<byte>, tail: seq<byte>, known: seq<LabelEntry>)
    requires j0 <= |done| && Stepped(Next(j, tail), done, bytes, name, known)
    requires WireOn(done[j0..], name0, name, known)
    ensures j0 <= j <= |bytes| && WireOn(bytes[j0..j], name0, tail, known)
  {
    WireNext(done[j0..], name0, name, name[..FirstDot(name)], known);
    assert bytes[j0..j] == done[j0..] + bytes[|done|..j];
  }

  /** What one turn writes behind `was`. */
  ghost predicate Stepped(turn: Turn, was: seq<byte>, bytes: seq<byte>, name: seq<byte>, known: seq<LabelEntry>) {
    // A let expression keeps the verifier from splitting this into parts.
    var stepped := was <= bytes &&
      match turn
      case Failed(_) => true
      case Finished(end) => |was| <= end <= |bytes| && Wire(bytes[|was|..end], name, known)
      case Next(j, tail) =>
        |was| <= j <= |bytes| && !Listed(name, known) && FirstDot(name) < |name| && FirstDot(name) <= 63 &&
        tail == name[FirstDot(name) + 1..] && j == |was| + 1 + FirstDot(name) &&
        bytes[|was|..j] == [FirstDot(name)] + name[..FirstDot(name)];
    stepped
  }

  /** What one turn at `j` adds to the table. */
  ghost predicate Tabled(turn: Turn, j: nat, name: seq<byte>, known: seq<LabelEntry>, labels: seq<LabelEntry>,
      labels': seq<LabelEntry>) {
    // A let expression keeps the verifier from splitting this into parts.
    var tabled := |labels| <= 128 ==>
      match turn
      case Failed(_) => true
      case Finished(end) => labels' == Capped(labels + NewEntries(name, j, known))
      case Next(_, _) => labels' == Capped(labels + [LabelEntry(name, j)]);
    tabled
  }

  /** Between two turns: the bytes `done` from `j0` on, and the table if there is one. */
  ghost predicate Noted(done: seq<byte>, table: LabelTable?, labels: seq<LabelEntry>, j: nat, name: seq<byte>, j0: nat,
      name0: seq<byte>, known: seq<LabelEntry>) {
    // A let expression keeps the verifier from splitting this into parts.
    var noted := WireOn(done, name0, name, known) &&
      (table != null && |known| <= 128 ==>
        |labels| <= 128 && Entered(labels, name, j, known) == Entered(known, name0, j0, known));
    noted
  }

  lemma {:induction false} NoteFirst(table: LabelTable?, j0: nat, name0: seq<byte>, known: seq<LabelEntry>)
    ensures Noted([], table, known, j0, name0, j0, name0, known)
  {
    WireStart(name0, known);
  }

  lemma {:induction false} NoteNext(done: seq<byte>, bytes: seq<byte>, table: LabelTable?, labels: seq<LabelEntry>,
      labels': seq<LabelEntry>, turn: Turn, name: seq<byte>, j0: nat, name0: seq<byte>, known: seq<LabelEntry>)
    requires j0 <= |done| && Noted(done[j0..], table, labels, |done|, name, j0, name0, known)
    requires turn.Next? && Stepped(turn, done, bytes, name, known)
    requires table != null ==> Tabled(turn, |done|, name, known, labels, labels')
    ensures j0 <= turn.j <= |bytes|
    ensures Noted(bytes[j0..turn.j], table, labels', turn.j, turn.name, j0, name0, known)
  {
    WireGoesOn(done, bytes, j0, turn.j, name0, name, turn.name, known);
    if table != null {
      EnteredNext(labels, name, |done|, turn.name, turn.j, known);
    }
  }

  lemma {:induction false} NoteLast(done: seq<byte>, bytes: seq<byte>, table: LabelTable?, labels: seq<LabelEntry>,
      labels': seq<LabelEntry>, turn: Turn, name: seq<byte>, j0: nat, name0: seq<byte>, known: seq<LabelEntry>)
    requires j0 <= |done| && Noted(done[j0..], table, labels, |done|, name, j0, name0, known)
    requires turn.Finished? && Stepped(turn, done, bytes, name, known)
    requires table != null ==> Tabled(turn, |done|, name, known, labels, labels')
    ensures j0 <= turn.end <= |bytes| && Wire(bytes[j0..turn.end], name0, known)
    ensures table != null && |known| <= 128 ==> labels' == Capped(known + NewEntries(name0, j0, known))
  {
    WireEnds(done, bytes, j0, turn.end, name0, name, known);
  }

  /** One turn of the loop of dnsname_to_labels for a name whose rest is not in the table. */
  method WriteTurn(buf: array<byte>, bufLen: nat, j: nat, name: seq<byte>, table: LabelTable?,
                   ghost n0: nat, ghost p0: seq<byte>, ghost name0: seq<byte>) returns (turn: Turn)
    requires |p0| <= j <= bufLen < buf.Length && Text(name) && buf[..|p0|] == p0
    requires Writing(Known(table), n0, p0, buf[..j], name0, name)
    modifies buf, table
    requires n0 <= |Known(table)| && !Listed(name, Known(table)[..n0])
    ensures Turned(turn, buf[..], bufLen, j, name, Known(table), n0, p0, name0)
    ensures Measured(turn, bufLen, j, name, false)
    ensures Stepped(turn, old(buf[..j]), buf[..], name, old(Known(table)[..n0]))
    ensures table != null ==> Tabled(turn, j, name, old(Known(table)[..n0]), old(Known(table)), Known(table))
    ensures n0 <= |Known(table)| && Known(table)[..n0] == old(Known(table)[..n0])
  {
    ghost var labels := Known(table);
    var dot := FirstDot(name);
    if dot > 63 {
      return Failed(-1);
    }
    if j + dot + 1 > bufLen {
      return Failed(-2);
    }
    Remember(table, name, j);
    if dot == |name| {
      turn := WriteLast(buf, bufLen, j, name, labels, Known(table), n0, p0, name0);
    } else {
      turn := WriteNext(buf, bufLen, j, name, labels, Known(table), n0, p0, name0);
    }
  }

  lemma {:induction false} Behind(bytes: seq<byte>, p: seq<byte>, p': seq<byte>, more: seq<byte>)
    requires p' <= bytes && p' == p + more
    ensures p <= bytes && bytes[|p|..|p'|] == more
  {
    assert bytes[|p|..|p'|] == p'[|p|..];
  }

  /** The last label of the name. */
  method WriteLast(buf: array<byte>, bufLen: nat, j: nat, name: seq<byte>, ghost labels: seq<LabelEntry>,
      ghost labels': seq<LabelEntry>, ghost n0: nat, ghost p0: seq<byte>, ghost name0: seq<byte>)
    returns (turn: Turn)
    requires |p0| <= j <= bufLen < buf.Length && Text(name) && buf[..|p0|] == p0
    requires Writing(labels, n0, p0, buf[..j], name0, name) && Remembered(labels, labels', name, j)
    requires FirstDot(name) == |name| <= 63 && j + |name| + 1 <= bufLen
    requires n0 <= |labels| && !Listed(name, labels[..n0])
    modifies buf
    ensures Turned(turn, buf[..], bufLen, j, name, labels', n0, p0, name0)
    ensures Measured(turn, bufLen, j, name, false)
    ensures Stepped(turn, old(buf[..j]), buf[..], name, labels[..n0])
    ensures turn.Finished?
  {
    ghost var p, p' := buf[..j], p0;
    var end;
    end, p' := WriteTerminated(buf, j, name, p, |p0|);
    LastWritten(labels, labels', n0, p0, p, p', name0, name);
    WireLast(name, labels[..n0]);
    Behind(buf[..], p, p', [|name|] + name + (if name == [] then [] else [0]));
    assert buf[..][..end] == p' && buf[..][..|p0|] == p0;
    turn := Finished(end);
  }

  /** A label with others behind it. */
  method WriteNext(buf: array<byte>, bufLen: nat, j: nat, name: seq<byte>, ghost labels: seq<LabelEntry>,
      ghost labels': seq<LabelEntry>, ghost n0: nat, ghost p0: seq<byte>, ghost name0: seq<byte>)
    returns (turn: Turn)
    requires |p0| <= j <= bufLen < buf.Length && Text(name) && buf[..|p0|] == p0
    requires Writing(labels, n0, p0, buf[..j], name0, name) && Remembered(labels, labels', name, j)
    requires FirstDot(name) < |name| && FirstDot(name) <= 63 && j + FirstDot(name) + 1 <= bufLen
    requires n0 <= |labels| && !Listed(name, labels[..n0])
    modifies buf
    ensures Turned(turn, buf[..], bufLen, j, name, labels', n0, p0, name0)
    ensures Measured(turn, bufLen, j, name, false)
    ensures Stepped(turn, old(buf[..j]), buf[..], name, labels[..n0])
    ensures turn.Next? && FirstDot(name) < |name|
  {
    ghost var p := buf[..j];
    var dot := FirstDot(name);
    ghost var p' := WriteMiddle(buf, j, name[..dot], p, |p0|);
    WriteStep(labels, labels', n0, p0, p, p', name0, name);
    Behind(buf[..], p, p', [dot] + name[..dot]);
    assert buf[..][..j + 1 + dot] == p' && buf[..][..|p0|] == p0;
    turn := Next(j + 1 + dot, name[dot + 1..]);
  }

  /** One turn of the loop: a pointer if the rest of the name is in the table, its next label if not. */
  method NameTurn(buf: array<byte>, bufLen: nat, j: nat, name: seq<byte>, table: LabelTable?,
                  ghost n0: nat, ghost p0: seq<byte>, ghost name0: seq<byte>) returns (turn: Turn)
    requires |p0| <= j <= bufLen < buf.Length && bufLen <= 0x4000 && Text(name) && buf[..|p0|] == p0
    requires Writing(Known(table), n0, p0, buf[..j], name0, name)
    requires n0 <= |Known(table)|
    modifies buf, table
    ensures Turned(turn, buf[..], bufLen, j, name, Known(table), n0, p0, name0)
    ensures Measured(turn, bufLen, j, name, table != null)
    ensures Stepped(turn, old(buf[..j]), buf[..], name, old(Known(table)[..n0]))
    ensures table != null ==> Tabled(turn, j, name, old(Known(table)[..n0]), old(Known(table)), Known(table))
    ensures n0 <= |Known(table)| && Known(table)[..n0] == old(Known(table)[..n0])
  {
    var pos := LookUp(table, name, n0, p0, buf[..j], name0);
    if pos < 0 {
      turn := WriteTurn(buf, bufLen, j, name, table, n0, p0, name0);
    } else {
      turn := PointTo(buf, bufLen, j, name, pos, Known(table), n0, p0, name0);
    }
  }

  /** The rest of the name is in the table, at `pos`. */
  method PointTo(buf: array<byte>, bufLen: nat, j: nat, name: seq<byte>, pos: nat, ghost labels: seq<LabelEntry>,
      ghost n0: nat, ghost p0: seq<byte>, ghost name0: seq<byte>)
    returns (turn: Turn)
    requires |p0| <= j <= bufLen < buf.Length && bufLen <= 0x4000 && buf[..|p0|] == p0
    requires Writing(labels, n0, p0, buf[..j], name0, name)
    requires pos < |p0| && (WellFormed(name) ==> Spells(p0, pos, pos, Labels(name)))
    requires n0 <= |labels| && LabelEntry(name, pos) in labels[..n0]
    modifies buf
    ensures Turned(turn, buf[..], bufLen, j, name, labels, n0, p0, name0)
    ensures Measured(turn, bufLen, j, name, true)
    ensures Stepped(turn, old(buf[..j]), buf[..], name, labels[..n0])
    ensures Tabled(turn, j, name, labels[..n0], labels, labels)
  {
    if j + 2 > bufLen {
      return Failed(-2);
    }
    ghost var p := buf[..j];
    ghost var p' := WritePointer(buf, j, pos, p, |p0|);
    PointerWritten(labels, n0, p0, p, p', name0, name, pos);
    WirePointer(pos, name, labels[..n0]);
    Behind(buf[..], p, p', Pointer(pos));
    assert buf[..][..j + 2] == p' && buf[..][..|p0|] == p0;
    turn := Finished(j + 2);
  }

  /**
    dnsname_to_labels: writes `name0` at `j0` and returns the index behind it, -1 for a label of more
    than 63 bytes and -2 if the buffer is too small.  It succeeds whenever the name can be written at
    all and fits as it stands; without a table only then.  The terminator is written without a check, so
    the buffer holds one byte more than `bufLen` says.
  */
  method DnsNameToLabels(buf: array<byte>, bufLen: nat, j0: nat, name0: seq<byte>, table: LabelTable?) returns (r: int)
    requires j0 <= bufLen <= 0x4000 && bufLen < buf.Length && Text(name0)
    requires Sound(Known(table), buf[..j0])
    modifies buf, table
    ensures r < 0 ==> r == -1 || r == -2
    ensures Writable(name0) && j0 + |name0| + 2 <= bufLen ==> r >= 0
    ensures table == null ==> (r >= 0 <==> Writable(name0) && j0 + |name0| + 1 <= bufLen)
    ensures r >= 0 ==> j0 < r <= bufLen + 1 && |name0| <= 255 && r <= j0 + |name0| + 2
    ensures buf[..j0] == old(buf[..j0])
    ensures r >= 0 ==> Written(Known(table), buf[..r], j0, name0)
    ensures r >= 0 ==> Wire(buf[j0..r], name0, old(Known(table)))
    ensures r >= 0 && table != null && |old(Known(table))| <= 128 ==>
      Known(table) == Capped(old(Known(table)) + NewEntries(name0, j0, old(Known(table))))
  {
    if |name0| > 255 {
      return -2;
    }
    var j, name := j0, name0;
    ghost var p0 := buf[..j0];
    ghost var n0 := |Known(table)|;
    ghost var known := Known(table);
    NoteFirst(table, j0, name0, known);
    assert known[..n0] == known && buf[..j0][j0..] == [];
    while true
      invariant j0 <= j <= bufLen && Text(name) && buf[..j0] == p0
      invariant Writing(Known(table), n0, p0, buf[..j], name0, name)
      invariant j + |name| == j0 + |name0| && (ShortLabels(name) <==> ShortLabels(name0))
      invariant n0 <= |Known(table)| && Known(table)[..n0] == known
      invariant Noted(buf[..j][j0..], table, Known(table), j, name, j0, name0, known)
      decreases |name|
    {
      ghost var done, labels := buf[..j], Known(table);
      var turn := NameTurn(buf, bufLen, j, name, table, n0, p0, name0);
      match turn
      case Failed(code) => return code;
      case Finished(end) =>
        NoteLast(done, buf[..], table, labels, Known(table), turn, name, j0, name0, known);
        assert buf[j0..end] == buf[..][j0..end];
        return end;
      case Next(j', name') =>
        NoteNext(done, buf[..], table, labels, Known(table), turn, name, j0, name0, known);
        assert buf[..j'][j0..] == buf[..][j0..j'];
        j, name := j', name';
    }
  }

  method WriteMiddle(buf: array<byte>, j: nat, word: seq<byte>, ghost p: seq<byte>, ghost j0: nat)
    returns (ghost p': seq<byte>)
    requires j + 1 + |word| <= buf.Length && |word| <= 63 && p == buf[..j] && j0 <= j
    modifies buf
    ensures p' == buf[..j + 1 + |word|] == p + [|word|] + word && buf[..j0] == old(buf[..j0])
  {
    WriteLabel(buf, j, word);
    p' := buf[..j + 1 + |word|];
    assert buf[..j0] == p'[..j0] == p[..j0];
  }

  // ---------- whole messages ----------

  /** A name that can be read lies in the packet. */
  lemma {:induction false} EndWithin(p: seq<byte>, j: nat, k: int)
    requires ReadName(p, j, k).Some?
    ensures j < EndOf(p, j) <= |p|
    decreases |p| - j
  {
    if 0 < p[j] < 64 {
      EndWithin(p, j + 1 + p[j], k);
    }
  }

  /** EndOf does not depend on what follows the name. */
  lemma {:induction false} EndExtended(p: seq<byte>, p': seq<byte>, j: nat, labels: seq<seq<byte>>, lo: int)
    requires Spells(p, lo, j, labels) && p <= p'
    ensures EndOf(p', j) == EndOf(p, j)
    decreases |p| - j
  {
    if 0 < p[j] < 64 {
      EndExtended(p, p', j + 1 + p[j], labels[1..], lo);
    }
  }

  /** A well-formed name of at most 255 bytes that is spelled at `j` is what name_parse returns, up to a final dot. */
  lemma {:induction false} RoundTrip(p: seq<byte>, j: nat, name: seq<byte>)
    requires WellFormed(name) && Spells(p, j, j, Labels(name))
    ensures ReadName(p, j, |p|) == Some(Labels(name)) && Join(Labels(name)) == Stripped(name)
  {
    SpellsReads(p, j, j, Labels(name), |p|);
    JoinLabels(name);
  }

  /** A piece of a message: a name, or any other bytes. */
  datatype Item = Name(name: seq<byte>) | Raw(bytes: seq<byte>)

  /** Where an item was written. */
  datatype Span = Span(start: nat, end: nat)

  /** Every well-formed name among the items can be read from `p` at its start, and ends where its writing ended. */
  ghost predicate Readable(p: seq<byte>, items: seq<Item>, spans: seq<Span>) {
    |spans| <= |items| && forall i | 0 <= i < |spans| && items[i].Name? && WellFormed(items[i].name) ::
      |items[i].name| <= 255 && Spells(p, spans[i].start, spans[i].start, Labels(items[i].name)) &&
      EndOf(p, spans[i].start) == spans[i].end
  }

  lemma {:induction false} ReadableExtended(p: seq<byte>, p': seq<byte>, items: seq<Item>, spans: seq<Span>)
    requires Readable(p, items, spans) && p <= p'
    ensures Readable(p', items, spans)
  {
    forall i | 0 <= i < |spans| && items[i].Name? && WellFormed(items[i].name)
      ensures Spells(p', spans[i].start, spans[i].start, Labels(items[i].name)) &&
        EndOf(p', spans[i].start) == spans[i].end
    {
      var j := spans[i].start;
      SpellsExtended(p, p', j, j, j, Labels(items[i].name));
      EndExtended(p, p', j, Labels(items[i].name), j);
    }
  }

  lemma {:induction false} SoundExtended(labels: seq<LabelEntry>, p: seq<byte>, p': seq<byte>)
    requires Sound(labels, p) && p <= p'
    ensures Sound(labels, p')
  {
    forall i | 0 <= i < |labels|
      ensures 0 <= labels[i].pos < |p'|
      ensures WellFormed(labels[i].v) ==> Spells(p', labels[i].pos, labels[i].pos, Labels(labels[i].v))
    {
      if WellFormed(labels[i].v) {
        SpellsExtended(p, p', labels[i].pos, labels[i].pos, labels[i].pos, Labels(labels[i].v));
      }
    }
  }

  /** An item that can be written at all. */
  predicate Sendable(item: Item) {
    item.Name? ==> Writable(item.name)
  }

  /** The most bytes an item can take. */
  function Size(item: Item): nat {
    match item
    case Name(name) => |name| + 2
    case Raw(bytes) => |bytes|
  }

  function TotalSize(items: seq<Item>): nat {
    if items == [] then 0 else TotalSize(items[..|items| - 1]) + Size(items[|items| - 1])
  }

  lemma {:induction false} SizeOfPrefix(items: seq<Item>, i: nat)
    requires i < |items|
    ensures TotalSize(items[..i + 1]) == TotalSize(items[..i]) + Size(items[i])
    ensures TotalSize(items[..i + 1]) <= TotalSize(items)
    decreases |items| - i
  {
    assert items[..i + 1][..i] == items[..i];
    if i + 1 < |items| {
      SizeOfPrefix(items, i + 1);
    } else {
      assert items[..i + 1] == items;
    }
  }

  /** One item is written behind the first `j` bytes; a negative result is an error. */
  method WriteItem(buf: array<byte>, bufLen: nat, j: nat, item: Item, table: LabelTable) returns (r: int)
    requires j <= bufLen <= 0x4000 && bufLen < buf.Length && (item.Name? ==> Text(item.name))
    requires Sound(table.labels, buf[..j])
    modifies buf, table
    ensures Sendable(item) && j + Size(item) <= bufLen ==> r >= 0
    ensures r >= 0 ==> j <= r <= bufLen + 1 && buf[..j] == old(buf[..j]) && Sound(table.labels, buf[..r])
    ensures r >= 0 ==> r <= j + Size(item)
    ensures r >= 0 && item.Name? && WellFormed(item.name) ==>
      |item.name| <= 255 && Spells(buf[..r], j, j, Labels(item.name)) && EndOf(buf[..r], j) == r
  {
    if item.Name? {
      r := DnsNameToLabels(buf, bufLen, j, item.name, table);
    } else {
      if j + |item.bytes| > bufLen {
        return -2;
      }
      ghost var p := buf[..j];
      forall k | 0 <= k < |item.bytes| {
        buf[j + k] := item.bytes[k];
      }
      r := j + |item.bytes|;
      assert buf[..j] == p && p <= buf[..r];
      SoundExtended(table.labels, p, buf[..r]);
    }
  }

  /**
    The body of a server response: names that share one compression table, with other fields between
    them.  It fits if its names can be written at all and the items fit as they stand.  Every
    well-formed name in it can then be read back where it was written, however many names followed it.
  */
  method WriteMessage(buf: array<byte>, bufLen: nat, items: seq<Item>) returns (r: int, spans: seq<Span>)
    requires bufLen <= 0x4000 && bufLen < buf.Length
    requires forall i | 0 <= i < |items| && items[i].Name? :: Text(items[i].name)
    modifies buf
    ensures (forall i | 0 <= i < |items| :: Sendable(items[i])) && TotalSize(items) <= bufLen ==> r >= 0
    ensures r >= 0 ==> r <= bufLen + 1 && |spans| == |items| && Readable(buf[..r], items, spans)
  {
    var table := new LabelTable();
    var j := 0;
    spans := [];
    for i := 0 to |items|
      invariant j <= bufLen + 1 && |spans| == i && j <= TotalSize(items[..i])
      invariant fresh(table) && Sound(table.labels, buf[..j]) && Readable(buf[..j], items, spans)
    {
      SizeOfPrefix(items, i);
      if j > bufLen {
        return -2, spans;
      }
      ghost var p := buf[..j];
      r := WriteItem(buf, bufLen, j, items[i], table);
      if r < 0 {
        return;
      }
      assert p <= buf[..r];
      ReadableExtended(p, buf[..r], items, spans);
      spans := spans + [Span(j, r)];
      j := r;
    }
    r := j;
  }

  /** What name_parse answered: its result, the text up to the terminator and the index behind the name. */
  datatype Parsed = Parsed(ret: int, text: seq<byte>, end: int)

  /** The C string in a buffer. */
  method ReadText(out: array<byte>) returns (t: seq<byte>)
    ensures |t| <= out.Length && t == out[..|t|] && Text(t) && (|t| < out.Length ==> out[|t|] == 0)
  {
    var n := 0;
    while n < out.Length && out[n] != 0
      invariant 0 <= n <= out.Length && Text(out[..n])
    {
      n := n + 1;
    }
    t := out[..n];
  }

  lemma {:induction false} SameText(s: seq<byte>, t: seq<byte>, name: seq<byte>)
    requires |t| <= |s| && t == s[..|t|] && Text(t) && (|t| < |s| ==> s[|t|] == 0)
    requires |name| < |s| && s[..|name|] == name && Text(name) && s[|name|] == 0
    ensures t == name
  {
    assert forall k | 0 <= k < |t| :: s[k] == t[k] != 0;
    assert forall k | 0 <= k < |name| :: s[k] == name[k] != 0;
  }

  /** A well-formed name among the items, parsed where it was written into the usual buffer of 256 bytes. */
  method ParseName(packet: seq<byte>, slack: seq<byte>, items: seq<Item>, spans: seq<Span>, i: nat) returns (r: Parsed)
    requires |slack| >= 63 && Readable(packet, items, spans) && i < |spans|
    requires items[i].Name? && WellFormed(items[i].name) && Text(items[i].name)
    ensures r == Parsed(0, Stripped(items[i].name), spans[i].end)
  {
    ghost var name := items[i].name;
    var out := new byte[256];
    RoundTrip(packet, spans[i].start, name);
    var ret, end := NameParse(packet, slack, spans[i].start, out);
    var text := ReadText(out);
    SameText(out[..], text, Stripped(name));
    r := Parsed(ret, text, end);
  }

  /**
    Names written with one shared table are parsed back, each at its start: name_parse answers 0, the
    name up to a final dot and the index behind it, whatever was written after it.
  */
  method MessageRoundTrip(buf: array<byte>, bufLen: nat, items: seq<Item>, slack: seq<byte>)
    returns (r: int, spans: seq<Span>, parsed: map<nat, Parsed>)
    requires bufLen <= 0x4000 && bufLen < buf.Length && |slack| >= 63
    requires forall i | 0 <= i < |items| && items[i].Name? :: Text(items[i].name)
    modifies buf
    ensures (forall i | 0 <= i < |items| :: Sendable(items[i])) && TotalSize(items) <= bufLen ==> r >= 0
    ensures r >= 0 ==>
      && |spans| == |items|
      && forall i | 0 <= i < |items| && items[i].Name? && WellFormed(items[i].name) ::
        i in parsed && parsed[i] == Parsed(0, Stripped(items[i].name), spans[i].end)
  {
    parsed := map[];
    r, spans := WriteMessage(buf, bufLen, items);
    if r < 0 {
      return;
    }
    var packet := buf[..r];
    for i := 0 to |items|
      invariant Readable(packet, items, spans)
      invariant forall k | 0 <= k < i && items[k].Name? && WellFormed(items[k].name) ::
        k in parsed && parsed[k] == Parsed(0, Stripped(items[k].name), spans[k].end)
    {
      if items[i].Name? && WellFormed(items[i].name) {
        var p := ParseName(packet, slack, items, spans, i);
        parsed := parsed[i := p];
      }
    }
  }
}
