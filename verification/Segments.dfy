/** A memory made of segments, seen as one flat run of bytes. */
module Segments {
  import opened Words
  import opened Slots

  /** The segments one after another. */
  function Flat(c: seq<seq<byte>>): seq<byte> {
    if c == [] then [] else Flat(c[..|c| - 1]) + c[|c| - 1]
  }

  /** Where segment `i` starts in the flat memory. */
  function Offset(c: seq<seq<byte>>, i: nat): nat
    requires i <= |c|
  {
    |Flat(c[..i])|
  }

  lemma OffsetStep(c: seq<seq<byte>>, i: nat)
    requires i < |c|
    ensures Flat(c[..i + 1]) == Flat(c[..i]) + c[i]
    ensures Offset(c, i + 1) == Offset(c, i) + |c[i]|
  {
    assert c[..i + 1][..i] == c[..i];
  }

  /** Segment `i` sits at its offset in the flat memory. */
  lemma {:induction false} FlatAt(c: seq<seq<byte>>, i: nat)
    requires i < |c|
    ensures Offset(c, i) + |c[i]| <= |Flat(c)|
    ensures Flat(c)[Offset(c, i)..Offset(c, i) + |c[i]|] == c[i]
  {
    var n := |c| - 1;
    if i < n {
      FlatAt(c[..n], i);
      assert c[..n][..i] == c[..i];
      var f := Flat(c[..n]);
      assert Flat(c)[..|f|] == f;
    }
  }

  lemma StoreLeft(x: seq<byte>, y: seq<byte>, at: nat, bytes: seq<byte>)
    requires at + |bytes| <= |x|
    ensures Store(x, at, bytes) + y == Store(x + y, at, bytes)
  {
  }

  lemma StoreRight(x: seq<byte>, y: seq<byte>, at: nat, bytes: seq<byte>)
    requires at + |bytes| <= |y|
    ensures x + Store(y, at, bytes) == Store(x + y, |x| + at, bytes)
  {
  }

  /** A store inside one segment is the same store on the flat memory, and moves no segment. */
  lemma {:induction false} FlatStore(c: seq<seq<byte>>, i: nat, at: nat, bytes: seq<byte>)
    requires i < |c| && at + |bytes| <= |c[i]|
    ensures Offset(c, i) + at + |bytes| <= |Flat(c)|
    ensures Flat(c[i := Store(c[i], at, bytes)]) == Store(Flat(c), Offset(c, i) + at, bytes)
  {
    hide Store;
    FlatAt(c, i);
    var n := |c| - 1;
    var d := c[i := Store(c[i], at, bytes)];
    if i < n {
      assert c[..n][..i] == c[..i];
      FlatAt(c[..n], i);
      FlatStore(c[..n], i, at, bytes);
      assert d[..n] == c[..n][i := Store(c[i], at, bytes)];
      StoreLeft(Flat(c[..n]), c[n], Offset(c, i) + at, bytes);
    } else {
      assert d[..n] == c[..n];
      StoreRight(Flat(c[..n]), c[n], at, bytes);
    }
  }

  /** Every segment holds a whole number of items. */
  predicate WholeItems(c: seq<seq<byte>>, w: Width) {
    forall i | 0 <= i < |c| :: Aligned(|c[i]|, w)
  }

  lemma {:induction false} WholeOffset(c: seq<seq<byte>>, w: Width, i: nat)
    requires WholeItems(c, w) && i <= |c|
    ensures Aligned(Offset(c, i), w)
  {
    hide Aligned;
    if i == 0 {
      AlignedZero(w);
    } else {
      WholeOffset(c, w, i - 1);
      OffsetStep(c, i - 1);
      AlignedSum(Offset(c, i - 1), |c[i - 1]|, w);
    }
  }

  lemma WholeFlat(c: seq<seq<byte>>, w: Width)
    requires WholeItems(c, w)
    ensures Aligned(|Flat(c)|, w)
  {
    WholeOffset(c, w, |c|);
    assert c[..|c|] == c;
  }

  /** Segment `i` holds the byte at flat address `address`. */
  predicate Holds(c: seq<seq<byte>>, i: nat, address: nat)
    requires i < |c|
  {
    Offset(c, i) <= address < Offset(c, i) + |c[i]|
  }

  lemma ItemFits(off: nat, len: nat, address: nat, w: Width)
    requires Aligned(off, w) && Aligned(len, w) && Aligned(address, w) && off <= address < off + len
    ensures address + BytesPerItem(w) <= off + len
  {
    hide Aligned;
    AlignedSum(off, len, w);
    ItemBefore(address, off + len, w);
  }

  lemma SliceOfSlice(s: seq<byte>, lo: nat, hi: nat, i: nat, k: nat)
    requires lo <= hi <= |s| && i <= k <= hi - lo
    ensures s[lo..hi][i..k] == s[lo + i..lo + k]
  {
    var x, y := s[lo..hi][i..k], s[lo + i..lo + k];
    assert forall t | 0 <= t < k - i :: x[t] == y[t];
  }

  lemma SameItem(m: seq<byte>, a: nat, n: seq<byte>, b: nat, w: Width, bigEndian: bool)
    requires a + BytesPerItem(w) <= |m| && b + BytesPerItem(w) <= |n|
    requires m[a..a + BytesPerItem(w)] == n[b..b + BytesPerItem(w)]
    ensures ItemValue(m, a, w, bigEndian) == ItemValue(n, b, w, bigEndian)
  {
    var x, y := m[a..a + BytesPerItem(w)], n[b..b + BytesPerItem(w)];
    assert x[0] == m[a] && y[0] == n[b];
    if w >= 4 {
      assert x[1] == m[a + 1] && y[1] == n[b + 1];
    }
    if w == 5 {
      assert x[2] == m[a + 2] && y[2] == n[b + 2] && x[3] == m[a + 3] && y[3] == n[b + 3];
    }
  }

  /** An item that ends inside the segment it starts in reads the same there as in the flat memory. */
  lemma ItemAtSegment(c: seq<seq<byte>>, w: Width, i: nat, address: nat, bigEndian: bool)
    requires i < |c| && Holds(c, i, address) && address - Offset(c, i) + BytesPerItem(w) <= |c[i]|
    ensures address + BytesPerItem(w) <= |Flat(c)|
    ensures ItemValue(c[i], address - Offset(c, i), w, bigEndian) == ItemValue(Flat(c), address, w, bigEndian)
  {
    hide ItemValue, Flat;
    FlatAt(c, i);
    var off := Offset(c, i);
    var at := address - off;
    SliceOfSlice(Flat(c), off, off + |c[i]|, at, at + BytesPerItem(w));
    SameItem(c[i], at, Flat(c), address, w, bigEndian);
  }

  /** An aligned item never straddles two segments: reading it in its segment reads it in the flat memory. */
  lemma ItemInSegment(c: seq<seq<byte>>, w: Width, i: nat, address: nat, bigEndian: bool)
    requires WholeItems(c, w) && i < |c| && Holds(c, i, address) && Aligned(address, w)
    ensures address - Offset(c, i) + BytesPerItem(w) <= |c[i]|
    ensures address + BytesPerItem(w) <= |Flat(c)|
    ensures ItemValue(c[i], address - Offset(c, i), w, bigEndian) == ItemValue(Flat(c), address, w, bigEndian)
  {
    hide ItemValue, Aligned, Flat;
    WholeOffset(c, w, i);
    ItemFits(Offset(c, i), |c[i]|, address, w);
    ItemAtSegment(c, w, i, address, bigEndian);
  }
}
