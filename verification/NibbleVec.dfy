/** The owning vector of nibbles: two to a byte, the last byte's low half zero while it is free. */
module NibbleVecs {
  import opened Bytes
  import opened Nibbles

  lemma AsNibblesAppend(a: bytes, x: byte)
    ensures AsNibbles(a + [x]) == AsNibbles(a) + [x / 16, x % 16]
  {
    if a == [] {
      assert a + [x] == [x] && [x][1..] == [];
    } else {
      AsNibblesAppend(a[1..], x);
      assert (a + [x])[1..] == a[1..] + [x];
    }
  }

  /** The first len nibbles of the bytes. */
  ghost function Taken(inner: bytes, len: nat): nibbles
    requires len <= 2 * |inner|
  {
    AsNibbles(inner)[..len]
  }

  /** A new byte for the next nibble. */
  lemma TakenGrow(inner: bytes, x: nibble)
    ensures Taken(inner + [ToByte(x, 0)], 2 * |inner| + 1) == Taken(inner, 2 * |inner|) + [x]
  {
    AsNibblesAppend(inner, ToByte(x, 0));
  }

  /** The free half of the last byte is filled. */
  lemma TakenFill(front: bytes, high: nibble, x: nibble)
    ensures Taken(front + [ToByte(high, x)], 2 * |front| + 2) == Taken(front + [ToByte(high, 0)], 2 * |front| + 1) + [x]
  {
    AsNibblesAppend(front, ToByte(high, 0));
    AsNibblesAppend(front, ToByte(high, x));
  }

  class NibbleVec {
    var inner: bytes
    var len: nat

    ghost predicate Valid()
      reads this
    {
      |inner| == (len + 1) / 2 && (len % 2 == 1 ==> inner[|inner| - 1] % 16 == 0)
    }

    ghost function Contents(): (c: nibbles)
      requires Valid()
      reads this
      ensures |c| == len
    {
      Taken(inner, len)
    }

    constructor ()
      ensures Valid() && Contents() == []
    {
      inner, len := [], 0;
    }

    /** Only the low half of the argument counts. */
    method Push(nibble: byte)
      requires Valid()
      modifies this
      ensures Valid() && Contents() == old(Contents()) + [nibble % 16]
    {
      if len % 2 == 0 {
        TakenGrow(inner, nibble % 16);
        inner := inner + [ToByte(nibble % 16, 0)];
      } else {
        var last := inner[|inner| - 1];
        ghost var front := inner[..|inner| - 1];
        assert inner == front + [ToByte(last / 16, 0)];
        TakenFill(front, last / 16, nibble % 16);
        inner := inner[|inner| - 1 := last + nibble % 16];
        assert inner == front + [ToByte(last / 16, nibble % 16)];
      }
      len := len + 1;
    }

    method Pop() returns (nibble: Option<nibble>)
      requires Valid()
      modifies this
      ensures Valid()
      ensures if old(Contents()) == [] then nibble == None && Contents() == []
              else nibble == Some(old(Contents())[old(len) - 1]) && Contents() == old(Contents())[..old(len) - 1]
    {
      if len == 0 {
        return None;
      }
      var last := inner[|inner| - 1];
      ghost var front := inner[..|inner| - 1];
      assert inner == front + [ToByte(last / 16, last % 16)];
      inner := inner[..|inner| - 1];
      if len % 2 == 0 {
        TakenFill(front, last / 16, last % 16);
        inner := inner + [ToByte(last / 16, 0)];
        nibble := Some(last % 16);
      } else {
        TakenGrow(front, last / 16);
        nibble := Some(last / 16);
      }
      len := len - 1;
    }

    /** The nibbles of a slice, pushed one by one. */
    constructor From(s: NibbleSlice)
      requires s.Valid()
      ensures Valid() && Contents() == s.Nibs()
    {
      inner, len := [], 0;
      new;
      var i := 0;
      while i < s.Len()
        invariant i <= s.Len() && Valid() && Contents() == s.Nibs()[..i]
      {
        TakeSnoc(s.Nibs(), i);
        Push(s.Nib(i));
        i := i + 1;
      }
      TakeAll(s.Nibs());
    }

    method At(idx: nat) returns (n: nibble)
      requires Valid() && idx < len
      ensures n == Contents()[idx]
    {
      HalfByte(inner, idx);
      n := if idx % 2 == 0 then inner[idx / 2] / 16 else inner[idx / 2] % 16;
    }
  }
}
