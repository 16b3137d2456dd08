/**
  The symbols of a word in memory, as replace_s moves them about: an array with a size and a
  capacity, which may be replaced by a larger one or be lost.
*/
module Symbols {
  import opened Snowball

  class Buffer {
    var p: array?<char>   // one symbol more than the capacity; null once it is lost
    var size: nat
    var c: int            // the cursor
    var l: int            // the limit

    ghost predicate Valid()
      reads this, p
    {
      p != null ==> size < p.Length
    }

    ghost function Text(): (t: string)
      requires Valid()
      reads this, p
    {
      if p == null then "" else p[..size]
    }

    /** The text up to the limit, which is all that a stemmer sees. */
    ghost function Word(): string
      requires Valid() && 0 <= l <= |Text()|
      reads this, p
    {
      Text()[..l]
    }

    /** SN_create_env: the first symbol, which create_s leaves as it is, stays behind the limit for ever. */
    constructor ()
      ensures Valid() && fresh(p) && size == 1 && l == 0 && c == 0 && p.Length == 2
    {
      p := new char[2];
      size, c, l := 1, 0, 0;
    }

    /** create_s */
    method Create()
      modifies this
      ensures Valid() && p != null && fresh(p) && size == 1 && p.Length == 2 && c == old(c) && l == old(l)
    {
      p := new char[2];
      size := 1;
    }

    /** increase_size: room for `n` symbols and twenty more, or nothing at all. */
    method Increase(n: nat, memory: bool)
      requires Valid() && p != null && size <= n
      modifies this`p
      ensures p != null <==> memory
      ensures memory ==> fresh(p) && p.Length == n + 21 && Valid() && Text() == old(Text())
    {
      if !memory {
        p := null;
        return;
      }
      var q := new char[n + 21];
      forall i | 0 <= i < p.Length && i < q.Length {
        q[i] := p[i];
      }
      assert q[..size] == p[..size];
      p := q;
    }

    /** The first memmove: everything from `ket` on moves by `d`, even over itself. */
    method MoveTail(ket: nat, d: int)
      requires Valid() && p != null && ket <= size && 0 <= ket + d && size + d < p.Length
      modifies this`size, p
      ensures Valid() && size == old(size) + d && Text()[ket + d..] == old(Text())[ket..]
      ensures forall i :: 0 <= i < ket && i < ket + d ==> p[i] == old(p[i])
    {
      forall i | 0 <= i < size - ket {
        p[ket + d + i] := p[ket + i];
      }
      size := size + d;
    }

    /** The second memmove: the new symbols go over the old ones. */
    method Fill(bra: nat, s: string)
      requires Valid() && p != null && bra + |s| <= size
      modifies p
      ensures Text() == old(Text())[..bra] + s + old(Text())[bra + |s|..]
    {
      forall i | 0 <= i < |s| {
        p[bra + i] := s[i];
      }
    }

    method Move(bra: nat, ket: nat, s: string)
      requires Valid() && p != null && bra <= ket <= size && size + |s| - (ket - bra) < p.Length
      modifies this`size, p
      ensures Valid() && Text() == old(Text())[..bra] + s + old(Text())[ket..]
    {
      ghost var t := Text();
      var d := |s| - (ket - bra);
      if d != 0 {
        MoveTail(ket, d);
      }
      assert Text()[..bra] == t[..bra];
      Fill(bra, s);
    }

    /** Whether the capacity suffices for `d` symbols more, before or after the first allocation. */
    predicate Fits(d: int)
      reads this
    {
      if p == null then d <= 0 else size + d < p.Length
    }

    /** replace_s; `created` and `grown` say whether malloc and realloc succeed. */
    method Replace(bra: nat, ket: nat, s: string, created: bool, grown: bool) returns (ret: int, adjustment: int)
      requires Valid() && bra <= ket <= if p == null then 1 else size
      modifies this, p
      ensures Valid() && (ret == 0 || ret == -1) && (p != null <==> ret == 0)
      ensures ret == 0 <==> (old(p) != null || created) && (grown || old(Fits(|s| - (ket - bra))))
      ensures ret == 0 && old(p) != null ==> Text() == old(Text())[..bra] + s + old(Text())[ket..]
      ensures ret == 0 ==> adjustment == |s| - (ket - bra) && l == old(l) + adjustment
      ensures ret == 0 && old(p) == null ==> |Text()| == 1 + adjustment && s <= Text()[bra..]
      ensures ret == 0 ==> c == Moved(old(c), bra, ket, adjustment)
      ensures ret == 0 ==>
        if old(c) >= ket then c == old(c) + |s| - (ket - bra)
        else if |s| != ket - bra && old(c) > bra then c == bra
        else c == old(c)
      ensures ret == -1 ==> l == old(l) && c == old(c)
    {
      adjustment := |s| - (ket - bra);
      if p == null {
        if !created {
          return -1, adjustment;
        }
        Create();
      }
      if adjustment != 0 {
        if adjustment + size > p.Length - 1 {
          Increase(adjustment + size, grown);
          if p == null {
            return -1, adjustment;
          }
        }
        Follow(bra, ket, adjustment);
      }
      Move(bra, ket, s);
      return 0, adjustment;
    }

    /** The limit and the cursor follow the text. */
    method Follow(bra: nat, ket: nat, d: int)
      requires d != 0
      modifies this`l, this`c
      ensures l == old(l) + d && c == Moved(old(c), bra, ket, d)
    {
      l := l + d;
      if c >= ket {
        c := c + d;
      } else if c > bra {
        c := bra;
      }
    }

    /** replace_s within the word, while there is memory: only the word changes, as SnEnv.ReplaceS says. */
    method ReplaceInWord(bra: nat, ket: nat, s: string) returns (ret: int)
      requires Valid() && p != null && bra <= ket <= l <= size
      modifies this, p
      ensures ret == 0 && Valid() && p != null && 0 <= l <= size && size - l == old(size - l)
      ensures Word() == old(Word())[..bra] + s + old(Word())[ket..]
      ensures Text()[l..] == old(Text())[old(l)..]
    {
      ghost var t, w := Text(), Word();
      var adjustment;
      ret, adjustment := Replace(bra, ket, s, true, true);
      assert t == w[..ket] + w[ket..] + t[old(l)..];
      assert Text() == w[..bra] + s + w[ket..] + t[old(l)..];
    }

    /** SN_set_current: the word is the given one, and one symbol stays behind it, where its terminator is written. */
    method SetCurrent(word: string, grown: bool) returns (ret: int)
      requires Valid() && p != null && 0 <= l && size == l + 1
      modifies this, p
      ensures Valid() && c == 0 && (ret == 0 <==> |word| + 1 < old(p.Length) || grown)
      ensures ret == 0 ==> p != null && l == |word| && size == l + 1 && Word() == word
      ensures ret != 0 ==> p == null
    {
      var adjustment;
      ret, adjustment := Replace(0, l, word, true, grown);
      c := 0;
    }
  }
}
