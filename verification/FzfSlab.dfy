/** The shared scratch memory of the fzf matcher: typed-array views handed out one after the other from a
    slab that is reused between calls and never cleared (src/utils/scripts/fzf.js:312-325, 910-918). */
module FzfSlab {

  const SLAB_16_SIZE := 100 * 1024
  const SLAB_32_SIZE := 2048

  /** JavaScript's conversion of an integer stored into an Int16Array. */
  function ToInt16(x: int): (r: int)
    ensures -0x8000 <= r < 0x8000
    ensures (r - x) % 0x1_0000 == 0
    ensures -0x8000 <= x < 0x8000 ==> r == x
  {
    (x + 0x8000) % 0x1_0000 - 0x8000
  }

  /** A typed-array view: `len` cells of `buf` from `off` on. */
  datatype View = View(buf: array<int>, off: nat, len: nat) {
    ghost predicate Valid() {
      off + len <= buf.Length
    }

    predicate Disjoint(other: View) {
      buf != other.buf || off + len <= other.off || other.off + other.len <= off
    }

    ghost function Cells(): (s: seq<int>)
      requires Valid()
      reads buf
      ensures |s| == len
    {
      buf[off..off + len]
    }

    method At(k: nat) returns (x: int)
      requires Valid() && k < len
      ensures x == Cells()[k]
    {
      x := buf[off + k];
    }

    /** Another view that a store into this one leaves alone. */
    ghost predicate Spares(other: View) {
      Valid() && other.Valid() && Disjoint(other)
    }

    /** Stores one value and leaves five other views as they were. */
    method Put(k: nat, x: int, ghost a: View, ghost b: View, ghost c: View, ghost d: View, ghost e: View)
      requires k < len && Spares(a) && Spares(b) && Spares(c) && Spares(d) && Spares(e)
      modifies buf
      ensures Cells() == old(Cells())[k := x]
      ensures a.Cells() == old(a.Cells()) && b.Cells() == old(b.Cells())
      ensures c.Cells() == old(c.Cells()) && d.Cells() == old(d.Cells()) && e.Cells() == old(e.Cells())
    {
      buf[off + k] := x;
    }

    /** The store of an Int16Array. */
    method Put16(k: nat, x: int, ghost a: View, ghost b: View, ghost c: View, ghost d: View, ghost e: View)
      requires k < len && Spares(a) && Spares(b) && Spares(c) && Spares(d) && Spares(e)
      modifies buf
      ensures Cells() == old(Cells())[k := ToInt16(x)]
      ensures a.Cells() == old(a.Cells()) && b.Cells() == old(b.Cells())
      ensures c.Cells() == old(c.Cells()) && d.Cells() == old(d.Cells()) && e.Cells() == old(e.Cells())
    {
      Put(k, ToInt16(x), a, b, c, d, e);
    }
  }

  /** Five views no two of which share a cell. */
  datatype Views = Views(a: View, b: View, c: View, d: View, e: View) {
    ghost predicate Apart() {
      && a.Valid() && b.Valid() && c.Valid() && d.Valid() && e.Valid()
      && a.Disjoint(b) && a.Disjoint(c) && a.Disjoint(d) && a.Disjoint(e)
      && b.Disjoint(c) && b.Disjoint(d) && b.Disjoint(e)
      && c.Disjoint(d) && c.Disjoint(e) && d.Disjoint(e)
    }
  }

  /** `alloc16` and `alloc32`: a piece of the slab if one cell more than needed is left, else a new array.
      Pieces of the slab follow one another, so what is handed out never overlaps what was. */
  method Alloc(offset: nat, slab: array<int>, size: nat) returns (next: nat, v: View)
    ensures v.Valid() && v.len == size
    ensures slab.Length > offset + size ==> next == offset + size && v == View(slab, offset, size)
    ensures slab.Length <= offset + size ==> next == offset && fresh(v.buf)
    ensures slab.Length <= offset + size ==> forall i :: 0 <= i < size ==> v.Cells()[i] == 0
    ensures next >= offset
  {
    if slab.Length > offset + size {
      next, v := offset + size, View(slab, offset, size);
    } else {
      var zeros := new int[size](_ => 0);
      next, v := offset, View(zeros, 0, size);
    }
  }

  /** Copies the `n` cells of `source` from `from` on to the start of `v`, as stores of an Int16Array. */
  method CopyRow(v: View, source: View, from: nat, n: nat, ghost a: View, ghost b: View, ghost c: View, ghost d: View)
    requires v.Spares(source) && v.Spares(a) && v.Spares(b) && v.Spares(c) && v.Spares(d)
    requires n <= v.len && from + n <= source.len
    requires forall i :: from <= i < from + n ==> -0x8000 <= source.Cells()[i] < 0x8000
    modifies v.buf
    ensures v.Cells()[..n] == source.Cells()[from..from + n]
    ensures source.Cells() == old(source.Cells()) && a.Cells() == old(a.Cells()) && b.Cells() == old(b.Cells())
    ensures c.Cells() == old(c.Cells()) && d.Cells() == old(d.Cells())
  {
    hide View.Cells;
    ghost var ss, s1, s2, s3, s4 := source.Cells(), a.Cells(), b.Cells(), c.Cells(), d.Cells();
    for i := 0 to n
      invariant v.Cells()[..i] == ss[from..from + i]
      invariant source.Cells() == ss && a.Cells() == s1 && b.Cells() == s2 && c.Cells() == s3 && d.Cells() == s4
    {
      var x := source.At(from + i);
      ghost var before := v.Cells();
      v.Put16(i, x, source, a, b, c, d);
      assert v.Cells()[..i + 1] == before[..i] + [x];
      assert ss[from..from + i + 1] == ss[from..from + i] + [x];
    }
  }
}
