/** A bitmap packed into machine words. */
module Bitmaps {
  import opened Options
  import opened Bits

  function ItemIndex(i: nat): nat {
    i / WORD_BITS
  }

  function BitMask(i: nat): (r: nat)
    ensures r < USIZE_LIMIT
  {
    Pow2Mono(i % WORD_BITS, WORD_BITS - 1);
    Pow2Of64();
    Pow2(i % WORD_BITS)
  }

  function ItemCount(bits: nat): (r: nat)
    ensures bits <= WORD_BITS * r
  {
    (bits + (WORD_BITS - 1)) / WORD_BITS
  }

  // The bits of a row of words

  predicate Words(ws: seq<nat>) {
    forall i :: 0 <= i < |ws| ==> ws[i] < USIZE_LIMIT
  }

  function Unpacked(ws: seq<nat>): (r: seq<bool>)
    ensures |r| == WORD_BITS * |ws|
  {
    seq(WORD_BITS * |ws|, i requires 0 <= i < WORD_BITS * |ws| => Bit(ws[i / WORD_BITS], i % WORD_BITS))
  }

  /** Changing one bit of one word changes one bit of the row. */
  lemma OneBit(ws: seq<nat>, i: nat, w: nat, value: bool)
    requires i < WORD_BITS * |ws|
    requires forall j :: 0 <= j < WORD_BITS ==>
      (Bit(w, j) <==> if j == i % WORD_BITS then value else Bit(ws[i / WORD_BITS], j))
    ensures Unpacked(ws[i / WORD_BITS := w]) == Unpacked(ws)[i := value]
  {
    var k := i / WORD_BITS;
    var ws' := ws[k := w];
    forall j | 0 <= j < WORD_BITS * |ws|
      ensures Unpacked(ws')[j] == Unpacked(ws)[i := value][j]
    {
      var (q, r) := (j / WORD_BITS, j % WORD_BITS);
      assert j == WORD_BITS * q + r && i == WORD_BITS * k + i % WORD_BITS;
      assert Bit(ws'[q], r) == if j == i then value else Bit(ws[q], r);
    }
  }

  lemma ZeroBits(n: nat)
    ensures Words(seq(n, _ => 0)) && Unpacked(seq(n, _ => 0)) == seq(WORD_BITS * n, _ => false)
  {
    Pow2Of64();
    forall i: nat
      ensures !Bit(0, i)
    {
      ZeroBit(i);
    }
  }

  // Runs of equal bits

  ghost predicate AllAre(bits: seq<bool>, start: nat, count: nat, value: bool) {
    start + count <= |bits| && forall i :: start <= i < start + count ==> bits[i] == value
  }

  /** `bits` with the given run replaced, bit by bit. */
  function Painted(bits: seq<bool>, start: nat, count: nat, value: bool): (r: seq<bool>)
    requires start + count <= |bits|
    ensures |r| == |bits|
    ensures forall i :: 0 <= i < |bits| ==> r[i] == if start <= i < start + count then value else bits[i]
  {
    seq(|bits|, i requires 0 <= i < |bits| => if start <= i < start + count then value else bits[i])
  }

  class Bitmap {
    const bitCount: nat
    const bits: array<nat>

    ghost predicate Valid()
      reads this, bits
    {
      bits.Length == ItemCount(bitCount) && Words(bits[..])
    }

    /** Every bit of every word, those past the end of the bitmap included. */
    ghost function Stored(): (r: seq<bool>)
      reads bits
    {
      Unpacked(bits[..])
    }

    ghost function Contents(): (r: seq<bool>)
      requires Valid()
      reads this, bits
      ensures |r| == bitCount
    {
      Stored()[..bitCount]
    }

    constructor (bitCount: nat)
      ensures Valid() && fresh(bits) && this.bitCount == bitCount
      ensures Contents() == seq(bitCount, _ => false)
    {
      this.bitCount := bitCount;
      bits := new nat[ItemCount(bitCount)](_ => 0);
      new;
      assert bits[..] == seq(ItemCount(bitCount), _ => 0);
      ZeroBits(ItemCount(bitCount));
    }

    method Get(i: nat) returns (value: bool)
      requires Valid() && i < WORD_BITS * bits.Length
      ensures value == Stored()[i]
    {
      value := And(bits[ItemIndex(i)], BitMask(i)) != 0;
      TestBit(bits[ItemIndex(i)], i % WORD_BITS);
    }

    method Mark(i: nat)
      requires Valid() && i < WORD_BITS * bits.Length
      modifies bits
      ensures Valid() && Stored() == old(Stored())[i := true]
    {
      ghost var ws, mask := bits[..], BitMask(i);
      var w := Or(bits[ItemIndex(i)], BitMask(i));
      OrBit(WORD_BITS, ws[i / WORD_BITS], mask, 0);
      forall j: nat
        ensures Bit(w, j) <==> Bit(ws[i / WORD_BITS], j) || j == i % WORD_BITS
      {
        OrBit(WORD_BITS, ws[i / WORD_BITS], mask, j);
        MaskBit(i % WORD_BITS, j);
      }
      bits[ItemIndex(i)] := w;
      OneBit(ws, i, w, true);
      assert bits[..] == ws[i / WORD_BITS := w];
    }

    method Reset(i: nat)
      requires Valid() && i < WORD_BITS * bits.Length
      modifies bits
      ensures Valid() && Stored() == old(Stored())[i := false]
    {
      ghost var ws, mask := bits[..], BitMask(i);
      var w := And(bits[ItemIndex(i)], Not(WORD_BITS, BitMask(i)));
      AndBit(WORD_BITS, ws[i / WORD_BITS], Not(WORD_BITS, mask), 0);
      forall j: nat | j < WORD_BITS
        ensures Bit(w, j) <==> Bit(ws[i / WORD_BITS], j) && j != i % WORD_BITS
      {
        NotBit(WORD_BITS, mask, j);
        AndBit(WORD_BITS, ws[i / WORD_BITS], Not(WORD_BITS, mask), j);
        MaskBit(i % WORD_BITS, j);
      }
      bits[ItemIndex(i)] := w;
      OneBit(ws, i, w, false);
      assert bits[..] == ws[i / WORD_BITS := w];
    }

    method Flip(i: nat)
      requires Valid() && i < WORD_BITS * bits.Length
      modifies bits
      ensures Valid() && Stored() == old(Stored())[i := !old(Stored()[i])]
    {
      ghost var ws, mask := bits[..], BitMask(i);
      var w := Xor(bits[ItemIndex(i)], BitMask(i));
      XorBit(WORD_BITS, ws[i / WORD_BITS], mask, 0);
      forall j: nat
        ensures Bit(w, j) <==> Bit(ws[i / WORD_BITS], j) != (j == i % WORD_BITS)
      {
        XorBit(WORD_BITS, ws[i / WORD_BITS], mask, j);
        MaskBit(i % WORD_BITS, j);
      }
      bits[ItemIndex(i)] := w;
      OneBit(ws, i, w, !Bit(ws[i / WORD_BITS], i % WORD_BITS));
      assert bits[..] == ws[i / WORD_BITS := w];
    }

    method Set(i: nat, value: bool)
      requires Valid() && i < WORD_BITS * bits.Length
      modifies bits
      ensures Valid() && Stored() == old(Stored())[i := value]
    {
      if value {
        Mark(i);
      } else {
        Reset(i);
      }
    }

    /** The assertions on a range of bits. */
    predicate BoundCheck(start: nat, count: nat) {
      start <= bitCount && start + count <= bitCount
    }

    /** Sets a run of bits; `ok` fails when an assertion does. */
    method SetMultiple(start: nat, count: nat, value: bool) returns (ok: bool)
      requires Valid()
      modifies bits
      ensures Valid() && (ok <==> start + count <= bitCount)
      ensures Stored() == if ok then Painted(old(Stored()), start, count, value) else old(Stored())
    {
      if !BoundCheck(start, count) {
        return false;
      }
      for i := start to start + count
        invariant Valid()
        invariant Stored() == Painted(old(Stored()), start, i - start, value)
      {
        Set(i, value);
      }
      return true;
    }

    /** Whether a run of bits is all `value`; `ok` fails when an assertion does. */
    method All(start: nat, count: nat, value: bool) returns (ok: bool, all: bool)
      requires Valid()
      ensures ok <==> start + count <= bitCount
      ensures ok ==> (all <==> AllAre(Contents(), start, count, value))
    {
      if !BoundCheck(start, count) {
        return false, false;
      }
      for i := start to start + count
        invariant forall j :: start <= j < i ==> Contents()[j] == value
      {
        var bit := Get(i);
        if bit != value {
          return true, false;
        }
      }
      return true, true;
    }

    /** The lowest run at or after `start`. Machine arithmetic fails on a count of 0 and on one above the length
        plus one. */
    method Find(start: nat, count: nat, value: bool) returns (ok: bool, found: Option<nat>)
      requires Valid()
      ensures ok <==> 1 <= count <= bitCount + 1
      ensures ok && found.None? ==> forall s :: start <= s ==> !AllAre(Contents(), s, count, value)
      ensures ok && found.Some? ==>
        && start <= found.value && AllAre(Contents(), found.value, count, value)
        && forall s :: start <= s < found.value ==> !AllAre(Contents(), s, count, value)
    {
      if count == 0 || count - 1 > bitCount {
        return false, None;
      }
      var end, i := bitCount - (count - 1), start;
      while i < end
        invariant start <= i
        invariant forall s :: start <= s < i ==> !AllAre(Contents(), s, count, value)
        decreases end - i
      {
        var checked, all := All(i, count, value);
        if all {
          return true, Some(i);
        }
        i := i + 1;
      }
      return true, None;
    }

    method FindAndFlip(start: nat, count: nat, value: bool) returns (ok: bool, found: Option<nat>)
      requires Valid()
      modifies bits
      ensures Valid() && (ok <==> 1 <= count <= bitCount + 1)
      ensures !ok || found.None? ==> Stored() == old(Stored())
      ensures ok && found.None? ==> forall s :: start <= s ==> !AllAre(old(Contents()), s, count, value)
      ensures ok && found.Some? ==>
        && start <= found.value && AllAre(old(Contents()), found.value, count, value)
        && (forall s :: start <= s < found.value ==> !AllAre(old(Contents()), s, count, value))
        && Stored() == Painted(old(Stored()), found.value, count, !value)
    {
      ghost var before := Contents();
      ok, found := Find(start, count, value);
      assert before == Contents() == old(Contents());
      if !ok || found.None? {
        return;
      }
      ghost var was := Stored();
      for i := found.value to found.value + count
        invariant Valid()
        invariant Stored() == Painted(was, found.value, i - found.value, !value)
      {
        assert was[i] == old(Contents())[i];
        Flip(i);
      }
    }
  }
}
