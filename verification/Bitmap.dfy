/** kern/lib/bitmap.c: an array of bits packed in bytes, refining a set of numbers. */
module Bitmap {

  function Mask(k: nat): bv8
    requires k < 8
  {
    if k == 0 then 1 else if k == 1 then 2 else if k == 2 then 4 else if k == 3 then 8
    else if k == 4 then 16 else if k == 5 then 32 else if k == 6 then 64 else 128
  }

  predicate Bit(w: bv8, k: nat)
    requires k < 8
  {
    w & Mask(k) != 0
  }

  function With(w: bv8, k: nat): bv8
    requires k < 8
  {
    w | Mask(k)
  }

  function Without(w: bv8, k: nat): bv8
    requires k < 8
  {
    w & !Mask(k)
  }

  lemma SetBit(w: bv8, k: nat, j: nat)
    requires k < 8 && j < 8
    ensures Bit(With(w, k), j) == (j == k || Bit(w, j))
  {
  }

  lemma ClearBit(w: bv8, k: nat, j: nat)
    requires k < 8 && j < 8
    ensures Bit(Without(w, k), j) == (j != k && Bit(w, j))
  {
  }

  /** A byte other than WORD_ALLBITS has a clear bit, so the inner search loop finds one. */
  lemma SomeClear(w: bv8)
    requires w != 0xff
    ensures exists k :: 0 <= k < 8 && !Bit(w, k)
  {
    if !Bit(w, 0) || !Bit(w, 1) || !Bit(w, 2) || !Bit(w, 3) {
    } else if !Bit(w, 4) || !Bit(w, 5) || !Bit(w, 6) || !Bit(w, 7) {
    } else {
      assert false;
    }
  }

  /** Bit number i, laid out by bitmap_translate. */
  predicate Get(v: seq<bv8>, i: nat)
    requires i < 8 * |v|
  {
    Bit(v[i / 8], i % 8)
  }

  /** Bits are counted from the least significant one. */
  lemma MaskDoubles(k: nat)
    requires 0 < k < 8
    ensures Mask(0) == 1 && Mask(k) == 2 * Mask(k - 1)
  {
  }

  /** The set of numbers below nbits whose bit is set. */
  function BitsOf(v: seq<bv8>, nbits: nat): set<nat> {
    set i | 0 <= i < 8 * |v| && i < nbits && Get(v, i)
  }

  /** Changing one bit of one byte changes that bit of the map only. */
  lemma ByteChanged(v: seq<bv8>, nbits: nat, index: nat, w: bv8, on: bool)
    requires index < nbits && |v| == (nbits + 7) / 8
    requires forall k :: 0 <= k < 8 ==> Bit(w, k) == if k == index % 8 then on else Bit(v[index / 8], k)
    ensures var v' := v[index / 8 := w];
            && (forall i :: 0 <= i < 8 * |v| ==> Get(v', i) == if i == index then on else Get(v, i))
            && BitsOf(v', nbits) == if on then BitsOf(v, nbits) + {index} else BitsOf(v, nbits) - {index}
  {
    var v' := v[index / 8 := w];
    forall i | 0 <= i < 8 * |v|
      ensures Get(v', i) == if i == index then on else Get(v, i)
    {
      assert i == 8 * (i / 8) + i % 8 && index == 8 * (index / 8) + index % 8;
    }
  }

  lemma Marked(v: seq<bv8>, nbits: nat, index: nat)
    requires index < nbits && |v| == (nbits + 7) / 8
    ensures var v' := v[index / 8 := With(v[index / 8], index % 8)];
            && (forall i :: 0 <= i < 8 * |v| ==> Get(v', i) == if i == index then true else Get(v, i))
            && BitsOf(v', nbits) == BitsOf(v, nbits) + {index}
  {
    forall k | 0 <= k < 8
      ensures Bit(With(v[index / 8], index % 8), k) == (k == index % 8 || Bit(v[index / 8], k))
    {
      SetBit(v[index / 8], index % 8, k);
    }
    ByteChanged(v, nbits, index, With(v[index / 8], index % 8), true);
  }

  lemma Unmarked(v: seq<bv8>, nbits: nat, index: nat)
    requires index < nbits && |v| == (nbits + 7) / 8
    ensures var v' := v[index / 8 := Without(v[index / 8], index % 8)];
            && (forall i :: 0 <= i < 8 * |v| ==> Get(v', i) == if i == index then false else Get(v, i))
            && BitsOf(v', nbits) == BitsOf(v, nbits) - {index}
  {
    forall k | 0 <= k < 8
      ensures Bit(Without(v[index / 8], index % 8), k) == (k != index % 8 && Bit(v[index / 8], k))
    {
      ClearBit(v[index / 8], index % 8, k);
    }
    ByteChanged(v, nbits, index, Without(v[index / 8], index % 8), false);
  }

  lemma NoBits(v: seq<bv8>)
    requires forall i :: 0 <= i < |v| ==> v[i] == 0
    ensures forall i :: 0 <= i < 8 * |v| ==> !Get(v, i)
  {
  }

  lemma EmptyBits(v: seq<bv8>, nbits: nat)
    requires forall i :: 0 <= i < 8 * |v| ==> Get(v, i) ==> nbits <= i
    ensures BitsOf(v, nbits) == {}
  {
    hide Get;
  }

  /** Bytes equal to WORD_ALLBITS hold no clear bit. */
  lemma AllBelow(v: seq<bv8>, nbits: nat, ix: nat, offset: nat)
    requires offset < 8 && 8 * ix + offset <= 8 * |v|
    requires forall i :: 0 <= i < ix ==> v[i] == 0xff
    requires offset > 0 ==> forall k :: 0 <= k < offset ==> Bit(v[ix], k)
    ensures forall i :: 0 <= i < 8 * ix + offset && i < nbits ==> i in BitsOf(v, nbits)
  {
    assert forall i :: 0 <= i < 8 * ix + offset ==> Get(v, i);
  }

  /** The search stopped at a clear bit: it is a real one, not padding. */
  lemma FoundClear(v: seq<bv8>, nbits: nat, ix: nat, offset: nat)
    requires |v| == (nbits + 7) / 8 && (forall i :: nbits <= i < 8 * |v| ==> Get(v, i))
    requires ix < |v| && offset < 8 && !Bit(v[ix], offset)
    ensures 8 * ix + offset < nbits && 8 * ix + offset !in BitsOf(v, nbits)
    ensures (8 * ix + offset) / 8 == ix && (8 * ix + offset) % 8 == offset
  {
    assert !Get(v, 8 * ix + offset);
  }

  /** The bits from lo up to hi are set and no others. */
  ghost predicate Padded(v: seq<bv8>, lo: nat, hi: nat) {
    forall i :: 0 <= i < 8 * |v| ==> Get(v, i) == (lo <= i < hi)
  }

  lemma NonePadded(v: seq<bv8>, lo: nat)
    requires forall i :: 0 <= i < 8 * |v| ==> !Get(v, i)
    ensures forall hi: nat :: hi <= lo ==> Padded(v, lo, hi)
  {
    hide Get;
  }

  lemma PadStep(v: seq<bv8>, lo: nat, ix: nat, j: nat)
    requires ix < |v| && j < 8 && lo <= 8 * ix + j && Padded(v, lo, 8 * ix + j)
    ensures Padded(v[ix := With(v[ix], j)], lo, 8 * ix + j + 1)
  {
    hide Get, With;
    Marked(v, 8 * |v|, 8 * ix + j);
  }

  lemma PaddedEnd(v: seq<bv8>, nbits: nat, hi: nat)
    requires Padded(v, nbits, hi) && hi <= 8 * |v|
    ensures forall i :: 0 <= i < 8 * |v| ==> Get(v, i) == (nbits <= i < hi)
  {
  }

  class Bitmap {
    const nbits: nat
    const v: array<bv8>

    ghost predicate Valid()
      reads v
    {
      && v.Length == (nbits + 7) / 8
      && (forall i :: nbits <= i < 8 * v.Length ==> Get(v[..], i))
    }

    /** The set the bitmap stands for. */
    ghost function Bits(): set<nat>
      reads v
    {
      BitsOf(v[..], nbits)
    }

    /** bitmap_create: every bit clear, and the padding of the last byte marked. */
    constructor (nbits: nat)
      ensures Valid() && this.nbits == nbits && Bits() == {} && fresh(v)
    {
      this.nbits := nbits;
      var words := (nbits + 7) / 8;
      v := new bv8[words](_ => 0);
      new;
      hide Bit, With, Without, Get, BitsOf, Padded;
      NoBits(v[..]);
      NonePadded(v[..], nbits);
      if nbits / 8 < words {
        var ix := words - 1;
        var overbits := nbits - 8 * ix;
        var j := overbits;
        while j < 8
          invariant overbits <= j <= 8
          invariant Padded(v[..], nbits, 8 * ix + j)
        {
          ghost var was := v[..];
          v[ix] := With(v[ix], j);
          assert v[..] == was[ix := With(was[ix], j)];
          PadStep(was, nbits, ix, j);
          j := j + 1;
        }
      }
      PaddedEnd(v[..], nbits, if nbits / 8 < words then 8 * words else nbits);
      EmptyBits(v[..], nbits);
    }

    /** bitmap_alloc: marks the lowest clear bit, or fails when there is none. */
    method Alloc() returns (ok: bool, index: nat)
      requires Valid()
      modifies v
      ensures Valid()
      ensures ok ==> index < nbits && index !in old(Bits()) && Bits() == old(Bits()) + {index}
      ensures ok ==> forall i :: 0 <= i < index ==> i in old(Bits())
      ensures !ok ==> v[..] == old(v[..]) && Bits() == old(Bits()) && forall i :: 0 <= i < nbits ==> i in Bits()
    {
      hide Bit, With, Without, Get, BitsOf;
      var maxix := (nbits + 7) / 8;
      var ix := 0;
      while ix < maxix
        invariant 0 <= ix <= maxix
        invariant forall i :: 0 <= i < ix ==> v[i] == 0xff
        invariant v[..] == old(v[..])
      {
        if v[ix] != 0xff {
          SomeClear(v[ix]);
          var offset := 0;
          while offset < 8
            invariant 0 <= offset <= 8
            invariant forall k :: 0 <= k < offset ==> Bit(v[ix], k)
            invariant v[..] == old(v[..])
          {
            if !Bit(v[ix], offset) {
              index := 8 * ix + offset;
              FoundClear(v[..], nbits, ix, offset);
              AllBelow(v[..], nbits, ix, offset);
              Marked(v[..], nbits, index);
              v[ix] := With(v[ix], offset);
              assert v[..] == old(v[..])[ix := With(old(v[..])[ix], offset)];
              return true, index;
            }
            offset := offset + 1;
          }
          assert false;
        }
        ix := ix + 1;
      }
      AllBelow(v[..], nbits, ix, 0);
      return false, 0;
    }

    /** bitmap_mark */
    method Mark(index: nat)
      requires Valid() && index < nbits && index !in Bits()
      modifies v
      ensures Valid() && Bits() == old(Bits()) + {index}
    {
      hide Bit, With, Without, Get, BitsOf;
      var ix, offset := index / 8, index % 8;
      Marked(v[..], nbits, index);
      v[ix] := With(v[ix], offset);
      assert v[..] == old(v[..])[ix := With(old(v[..])[ix], offset)];
    }

    /** bitmap_unmark: its assertion that the bit is set is the precondition. */
    method Unmark(index: nat)
      requires Valid() && index < nbits && index in Bits()
      modifies v
      ensures Valid() && Bits() == old(Bits()) - {index}
    {
      hide Bit, With, Without, Get, BitsOf;
      var ix, offset := index / 8, index % 8;
      Unmarked(v[..], nbits, index);
      v[ix] := Without(v[ix], offset);
      assert v[..] == old(v[..])[ix := Without(old(v[..])[ix], offset)];
    }

    /** bitmap_isset */
    method IsSet(index: nat) returns (r: bool)
      requires Valid() && index < nbits
      ensures r == (index in Bits())
    {
      r := Bit(v[index / 8], index % 8);
    }
  }
}
