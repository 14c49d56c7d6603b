/** kern/lib/array.c: the growable array behind the sleepers and zombies lists, refining a
    sequence. */
module PtrArray {

  function RemoveAt<T>(s: seq<T>, i: nat): seq<T>
    requires i < |s|
  {
    s[..i] + s[i + 1..]
  }

  class PtrArray<T(0)> {
    var num: nat
    var max: nat
    var v: array<T>   // NULL is an array of length 0

    ghost predicate Valid()
      reads this
    {
      num <= max == v.Length
    }

    ghost function Contents(): seq<T>
      requires Valid()
      reads this, v
    {
      v[..num]
    }

    /** array_create */
    constructor ()
      ensures Valid() && Contents() == [] && fresh(v)
    {
      num, max := 0, 0;
      v := new T[0];
    }

    /** array_preallocate: room for at least nguys, the contents untouched. */
    method Preallocate(nguys: nat, memok: bool, filler: T) returns (ok: bool)
      requires Valid()
      modifies this
      ensures Valid() && ok == memok && Contents() == old(Contents())
      ensures (ok ==> max >= nguys && max >= old(max) && fresh(v)) && (!ok ==> max == old(max) && v == old(v))
    {
      var newmax := max;
      while nguys > newmax
        invariant newmax >= max
        decreases nguys - newmax
      {
        newmax := (newmax + 1) * 2;
      }
      if !memok {
        return false;
      }
      var newv := new T[newmax](_ => filler);
      max := newmax;
      for i := 0 to num
        invariant max == newmax && v == old(v) && num == old(num) && v[..] == old(v[..])
        invariant newv[..i] == v[..i]
      {
        newv[i] := v[i];
      }
      v := newv;
      return true;
    }

    /** array_setsize. Shrinking to nothing may give the storage back, and never fails. */
    method SetSize(nguys: nat, memok: bool, filler: T) returns (ok: bool)
      requires Valid()
      modifies this
      ensures Valid() && (v == old(v) || fresh(v))
      ensures ok == (memok || nguys <= old(max))
      ensures ok ==> num == nguys && (nguys <= old(num) ==> Contents() == old(Contents())[..nguys])
      ensures ok && old(num) <= nguys ==> Contents()[..old(num)] == old(Contents())
      ensures !ok ==> Contents() == old(Contents()) && num == old(num)
      ensures nguys <= old(max) && nguys > 0 ==> v == old(v) && max == old(max)
    {
      if nguys > max {
        ok := Preallocate(nguys, memok, filler);
        if !ok {
          return;
        }
      } else if nguys == 0 && max > 16 {
        v := new T[0];
        max := 0;
      }
      num := nguys;
      return true;
    }

    /** array_add */
    method Add(guy: T, memok: bool, filler: T) returns (ok: bool)
      requires Valid()
      modifies this, v
      ensures Valid() && (v == old(v) || fresh(v))
      ensures ok == (memok || old(num) < old(max))
      ensures Contents() == if ok then old(Contents()) + [guy] else old(Contents())
    {
      var ix := num;
      ok := SetSize(ix + 1, memok, filler);
      if !ok {
        return;
      }
      v[ix] := guy;
    }

    /** array_remove: the part behind the hole moves down. */
    method Remove(index: nat)
      requires Valid() && index < num
      modifies this`num, v
      ensures Valid() && Contents() == RemoveAt(old(Contents()), index)
    {
      var nmove := num - (index + 1);
      forall k | 0 <= k < nmove {
        v[index + k] := v[index + 1 + k];
      }
      num := num - 1;
      assert v[index..num] == old(v[..])[index + 1..num + 1];
      assert v[..num] == v[..index] + v[index..num];
    }
  }
}
