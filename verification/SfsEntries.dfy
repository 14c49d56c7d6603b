/** The root directory as an array of 64-byte entries, and as a finite map from names to
    inode numbers. */
module SfsEntries {
  import opened Codec
  import opened SfsBytes

  const NAMELEN := 60

  /** A C string: no zero byte inside. */
  type Name = n: seq<byte> | forall k :: 0 <= k < |n| ==> n[k] != 0 witness []

  datatype Entry = Entry(ino: u32, name: Name)

  const FreeEntry := Entry(0, [])

  /** The characters before the first zero byte. */
  function CString(s: seq<byte>): (n: Name)
    ensures |n| <= |s|
  {
    if s == [] || s[0] == 0 then [] else [s[0]] + CString(s[1..])
  }

  lemma {:induction false} CStringPadded(n: Name, z: nat)
    ensures CString(n + Zeros(z)) == n
  {
    if n == [] {
      assert n + Zeros(z) == Zeros(z);
    } else {
      assert (n + Zeros(z))[1..] == n[1..] + Zeros(z);
      CStringPadded(n[1..], z);
    }
  }

  /** struct sfs_dir: a big-endian inode number and a zero-padded name. */
  function Encode(e: Entry): (r: seq<byte>)
    requires |e.name| < NAMELEN
    ensures |r| == 64
  {
    [ByteOf(e.ino, 0), ByteOf(e.ino, 1), ByteOf(e.ino, 2), ByteOf(e.ino, 3)] + e.name + Zeros(60 - |e.name|)
  }

  /** sfs_dir_findname forces the last name byte to zero before comparing. */
  function Decode(r: seq<byte>): (e: Entry)
    requires |r| == 64
    ensures |e.name| < NAMELEN
  {
    Entry(WordOf(r[0], r[1], r[2], r[3]), CString(r[4..63]))
  }

  /** Reading back a written entry gives the same inode number and name. */
  lemma EntryRoundTrip(e: Entry)
    requires |e.name| < NAMELEN
    ensures Decode(Encode(e)) == e
  {
    WordRoundTrip(e.ino);
    assert Encode(e)[4..63] == e.name + Zeros(59 - |e.name|);
    CStringPadded(e.name, 59 - |e.name|);
  }

  /** The bytes of an entry: a big-endian number and the name, zero-padded. */
  lemma EntryLayout(e: Entry)
    requires |e.name| < NAMELEN
    ensures var r := Encode(e);
            && BigEndian(r[..4]) == e.ino && r[4..4 + |e.name|] == e.name
            && forall p :: 4 + |e.name| <= p < 64 ==> r[p] == 0
  {
    BigEndian4(Encode(e)[..4]);
    WordRoundTrip(e.ino);
  }

  /** Any 64 bytes read as an entry: the name ends at the first zero byte, or at byte 63. */
  lemma DecodeLayout(r: seq<byte>)
    requires |r| == 64
    ensures var e := Decode(r);
            && e.ino == BigEndian(r[..4]) && e.name == r[4..4 + |e.name|]
            && (|e.name| < 59 ==> r[4 + |e.name|] == 0)
  {
    hide BigEndian;
    BigEndian4(r[..4]);
    CStringPrefix(r[4..63]);
    var n := |CString(r[4..63])|;
    PrefixAt(r, n);
  }

  lemma PrefixAt(r: seq<byte>, n: nat)
    requires |r| == 64 && n <= 59
    ensures r[4..63][..n] == r[4..4 + n] && (n < 59 ==> r[4..63][n] == r[4 + n])
  {
    var x, y := r[4..63][..n], r[4..4 + n];
    assert |x| == |y| == n;
    forall k | 0 <= k < n
      ensures x[k] == y[k]
    {
    }
  }

  lemma {:induction false} CStringPrefix(s: seq<byte>)
    ensures CString(s) == s[..|CString(s)|] && (|CString(s)| < |s| ==> s[|CString(s)|] == 0)
  {
    if s != [] && s[0] != 0 {
      CStringPrefix(s[1..]);
    }
  }

  /** The slots of a directory file. */
  function Dir(c: seq<byte>): (d: seq<Entry>)
    ensures |d| == |c| / 64
  {
    seq(|c| / 64, k requires 0 <= k < |c| / 64 => Decode(c[64 * k..64 * k + 64]))
  }

  /** d with slot k set to e, or extended by e when k is the next slot. */
  function SetSlot(d: seq<Entry>, k: nat, e: Entry): (r: seq<Entry>)
    requires k <= |d|
  {
    if k < |d| then d[k := e] else d + [e]
  }

  lemma OverlayAt(c: seq<byte>, off: nat, d: seq<byte>, p: nat)
    requires p < |Overlay(c, off, d)|
    ensures Overlay(c, off, d)[p] == if off <= p < off + |d| then d[p - off] else if p < |c| then c[p] else 0
  {
  }

  lemma OverlayLen(c: seq<byte>, k: nat, e: seq<byte>)
    requires |c| % 64 == 0 && 64 * k <= |c| && |e| == 64
    ensures |Overlay(c, 64 * k, e)| == if k < |c| / 64 then |c| else |c| + 64
  {
  }

  lemma SlotBytes(c: seq<byte>, k: nat, e: seq<byte>, q: nat)
    requires |c| % 64 == 0 && 64 * k <= |c| && |e| == 64 && 64 * q + 64 <= |Overlay(c, 64 * k, e)|
    requires q != k ==> 64 * q + 64 <= |c|
    ensures Overlay(c, 64 * k, e)[64 * q..64 * q + 64] == if q == k then e else c[64 * q..64 * q + 64]
  {
    hide Overlay;
    var x := Overlay(c, 64 * k, e)[64 * q..64 * q + 64];
    var y := if q == k then e else c[64 * q..64 * q + 64];
    forall p | 0 <= p < 64
      ensures x[p] == y[p]
    {
      OverlayAt(c, 64 * k, e, 64 * q + p);
      assert q < k ==> 64 * q + p < 64 * k;
      assert q > k ==> 64 * q >= 64 * k + 64;
    }
  }

  /** Writing an encoded entry over slot k of the file changes that slot of the directory. */
  lemma WriteSlot(c: seq<byte>, k: nat, e: Entry)
    requires |c| % 64 == 0 && 64 * k <= |c| && |e.name| < NAMELEN
    ensures Dir(Overlay(c, 64 * k, Encode(e))) == SetSlot(Dir(c), k, e)
    ensures |Overlay(c, 64 * k, Encode(e))| % 64 == 0
  {
    hide Overlay, Encode, Decode;
    var c' := Overlay(c, 64 * k, Encode(e));
    var d, d' := SetSlot(Dir(c), k, e), Dir(c');
    OverlayLen(c, k, Encode(e));
    EntryRoundTrip(e);
    forall q | 0 <= q < |d|
      ensures d'[q] == d[q]
    {
      SlotBytes(c, k, Encode(e), q);
    }
  }

  // ---------------------------------------------------------------- the directory as a map

  predicate Used(d: seq<Entry>, k: int) { 0 <= k < |d| && d[k].ino != 0 }

  /** No two entries in use have the same name. */
  ghost predicate Unique(d: seq<Entry>) {
    forall a, b :: Used(d, a) && Used(d, b) && d[a].name == d[b].name ==> a == b
  }

  ghost predicate HasName(d: seq<Entry>, n: Name) {
    exists k :: Used(d, k) && d[k].name == n
  }

  /** The name-to-inode map a directory stands for. */
  ghost function AsMap(d: seq<Entry>): map<Name, u32>
    requires Unique(d)
  {
    map k | 0 <= k < |d| && Used(d, k) :: d[k].name := d[k].ino
  }

  lemma InMap(d: seq<Entry>, n: Name)
    requires Unique(d)
    ensures n in AsMap(d) <==> HasName(d, n)
  {
  }

  lemma MapAt(d: seq<Entry>, k: nat)
    requires Unique(d) && Used(d, k)
    ensures d[k].name in AsMap(d) && AsMap(d)[d[k].name] == d[k].ino
  {
  }

  /** sfs_dir_link: inserting a new name is a map update. */
  lemma InsertEntry(d: seq<Entry>, k: nat, e: Entry)
    requires Unique(d) && k <= |d| && !Used(d, k) && e.ino != 0 && !HasName(d, e.name)
    ensures Unique(SetSlot(d, k, e))
    ensures AsMap(SetSlot(d, k, e)) == AsMap(d)[e.name := e.ino]
  {
    var d' := SetSlot(d, k, e);
    assert forall q :: Used(d', q) <==> q == k || Used(d, q);
    assert forall q :: Used(d, q) ==> d'[q] == d[q];
    assert d'[k] == e;
    assert Unique(d');
    InsertedMap(d, d', k, e);
  }

  lemma InsertedMap(d: seq<Entry>, d': seq<Entry>, k: nat, e: Entry)
    requires Unique(d) && Unique(d') && k < |d'| && d'[k] == e && e.ino != 0
    requires forall q :: Used(d', q) <==> q == k || Used(d, q)
    requires forall q :: Used(d, q) && q != k ==> q < |d'| && d'[q] == d[q]
    requires !Used(d, k)
    ensures AsMap(d') == AsMap(d)[e.name := e.ino]
  {
    hide AsMap;
    var m, m' := AsMap(d)[e.name := e.ino], AsMap(d');
    assert Used(d', k);
    MapAt(d', k);
    forall n
      ensures n in m' <==> n in m
      ensures n in m && n in m' ==> m'[n] == m[n]
    {
      InMap(d, n);
      InMap(d', n);
      if n != e.name && HasName(d, n) {
        var q :| Used(d, q) && d[q].name == n;
        assert Used(d', q);
        MapAt(d, q);
        MapAt(d', q);
      }
    }
  }

  /** sfs_dir_unlink: clearing a slot removes its name from the map. */
  lemma RemoveEntry(d: seq<Entry>, k: nat)
    requires Unique(d) && Used(d, k)
    ensures Unique(d[k := FreeEntry])
    ensures AsMap(d[k := FreeEntry]) == AsMap(d) - {d[k].name}
  {
    var d' := d[k := FreeEntry];
    assert forall q :: Used(d', q) <==> q != k && Used(d, q);
    assert forall q :: Used(d', q) ==> d'[q] == d[q];
    assert Unique(d');
    InsertedMap(d', d, k, d[k]);
    InMap(d', d[k].name);
  }

  /** The map has as many names as there are entries in use; it is as large as the directory
      exactly when no slot is free. */
  lemma {:induction false} MapSize(d: seq<Entry>)
    requires Unique(d)
    ensures |AsMap(d)| <= |d|
    ensures |AsMap(d)| == |d| <==> forall k :: 0 <= k < |d| ==> Used(d, k)
  {
    if d == [] {
      assert AsMap(d) == map[];
    } else {
      var n := |d| - 1;
      var d' := d[..n];
      assert forall k :: Used(d', k) ==> Used(d, k) && d'[k] == d[k];
      MapSize(d');
      if Used(d, n) {
        assert forall q :: Used(d, q) <==> q == n || Used(d', q);
        InsertedMap(d', d, n, d[n]);
        InMap(d', d[n].name);
      } else {
        SkippedSlot(d', d);
      }
    }
  }

  lemma SkippedSlot(d: seq<Entry>, d': seq<Entry>)
    requires Unique(d) && Unique(d') && |d'| == |d| + 1 && d'[..|d|] == d && !Used(d', |d|)
    ensures AsMap(d') == AsMap(d)
  {
    assert forall q :: Used(d', q) <==> Used(d, q);
    assert forall q :: Used(d, q) ==> d'[q] == d[q];
  }

  // ---------------------------------------------------------------- link counts

  /** How many entries name inode i. */
  function Links(d: seq<Entry>, i: nat): nat {
    if d == [] then 0 else (if d[|d| - 1].ino == i then 1 else 0) + Links(d[..|d| - 1], i)
  }

  lemma {:induction false} LinksBound(d: seq<Entry>, i: nat)
    ensures Links(d, i) <= |d|
  {
    if d != [] { LinksBound(d[..|d| - 1], i); }
  }

  lemma {:induction false} LinksUpdate(d: seq<Entry>, k: nat, e: Entry, i: nat)
    requires k < |d|
    ensures Links(d[k := e], i) == Links(d, i) - (if d[k].ino == i then 1 else 0) + (if e.ino == i then 1 else 0)
  {
    var n := |d| - 1;
    if k == n {
      assert d[k := e][..n] == d[..n];
    } else {
      assert d[k := e][..n] == d[..n][k := e];
      LinksUpdate(d[..n], k, e, i);
    }
  }

  lemma LinksSet(d: seq<Entry>, k: nat, e: Entry, i: nat)
    requires k <= |d| && i != 0
    ensures Links(SetSlot(d, k, e), i) ==
            Links(d, i) - (if Used(d, k) && d[k].ino == i then 1 else 0) + (if e.ino == i then 1 else 0)
  {
    if k < |d| {
      LinksUpdate(d, k, e, i);
    } else {
      assert (d + [e])[..|d|] == d;
    }
  }

  lemma {:induction false} LinksPositive(d: seq<Entry>, k: nat)
    requires k < |d|
    ensures Links(d, d[k].ino) > 0
  {
    if k < |d| - 1 {
      assert d[..|d| - 1][k] == d[k];
      LinksPositive(d[..|d| - 1], k);
    }
  }
}
