/**
 Sparse layers of a copy-on-write volume and the flat view of a stack of them.

 A layer is one disk file: its bytes, and the set of sectors that hold data. In
 a stack, index 0 is a placeholder, index 1 is the base (never probed for data)
 and the last index is the layer that takes the writes.
 */
module Layers {
  import opened Sectors

  datatype Layer = Layer(bytes: seq<byte>, alloc: set<nat>)

  function Zeros(n: nat): (z: seq<byte>)
    ensures |z| == n
    ensures forall i :: 0 <= i < n ==> z[i] == 0
  {
    seq(n, i => 0)
  }

  /** `s` with the bytes from `off` on overwritten by `b`. */
  function Splice(s: seq<byte>, off: nat, b: seq<byte>): (r: seq<byte>)
    requires off + |b| <= |s|
    ensures |r| == |s|
    ensures forall o :: 0 <= o < |s| ==> r[o] == if off <= o < off + |b| then b[o - off] else s[o]
  {
    s[..off] + b + s[off + |b|..]
  }

  /** The sectors from `a` up to but excluding `b`. */
  function Range(a: nat, b: nat): (r: set<nat>)
    ensures forall s :: s in r <==> a <= s < b
    decreases b
  {
    if b <= a then {} else Range(a, b - 1) + {b - 1}
  }

  /** The sectors that the `len` bytes at `off` touch. */
  function Touched(off: nat, len: nat, ss: nat): set<nat>
    requires 0 < ss
  {
    if len == 0 then {} else Range(Sec(off, ss), Sec(off + len - 1, ss) + 1)
  }

  /** The byte of a file at `o`; a file reads as zero past its end. */
  function FileByte(l: Layer, o: nat): byte {
    if o < |l.bytes| then l.bytes[o] else 0
  }

  /** A file after `b` has been written at `off`. */
  function WriteLayer(l: Layer, off: nat, b: seq<byte>, ss: nat): (r: Layer)
    requires 0 < ss
    requires off + |b| <= |l.bytes|
    ensures |r.bytes| == |l.bytes|
  {
    Layer(Splice(l.bytes, off, b), l.alloc + Touched(off, |b|, ss))
  }

  /** The topmost layer at or below `top` that holds sector `s`, or the base. */
  function Owner(layers: seq<Layer>, top: nat, s: nat): (i: nat)
    requires 1 <= top < |layers|
    ensures 1 <= i <= top
    ensures i != 1 ==> s in layers[i].alloc
    ensures forall j :: i < j <= top ==> s !in layers[j].alloc
  {
    if top == 1 || s in layers[top].alloc then top else Owner(layers, top - 1, s)
  }

  /** The byte a stack of layers shows at `o` when opened at layer `top`. */
  function ViewByte(layers: seq<Layer>, top: nat, ss: nat, o: nat): byte
    requires 1 <= top < |layers|
    requires 0 < ss
  {
    FileByte(layers[Owner(layers, top, Sec(o, ss))], o)
  }

  /** The flat contents of a volume of `size` bytes backed by the whole stack. */
  function View(layers: seq<Layer>, ss: nat, size: nat): (v: seq<byte>)
    requires 2 <= |layers|
    requires 0 < ss
    ensures |v| == size
    ensures forall o :: 0 <= o < size ==> v[o] == ViewByte(layers, |layers| - 1, ss, o)
  {
    seq(size, o requires 0 <= o < size => ViewByte(layers, |layers| - 1, ss, o))
  }

  /** Which layer owns a sector depends only on who holds it. */
  lemma {:induction false} OwnerIs(layers: seq<Layer>, top: nat, s: nat, i: nat)
    requires 1 <= i <= top < |layers|
    requires i != 1 ==> s in layers[i].alloc
    requires forall j :: i < j <= top ==> s !in layers[j].alloc
    ensures Owner(layers, top, s) == i
  {
  }

  /** A non-empty aligned extent ends with its last whole sector. */
  lemma {:induction false} LastSector(off: nat, len: nat, ss: nat)
    requires 0 < ss && 0 < len
    requires Rem(off, ss) == 0 && Rem(len, ss) == 0
    ensures 0 < Sec(len, ss)
    ensures Sec(off + len - 1, ss) == Sec(off, ss) + Sec(len, ss) - 1
  {
    AlignedAdd(off, len - 1, ss);
    SecAt(len - 1, Sec(len, ss) - 1, ss);
  }

  /** Aligned extents hold exactly the bytes of the sectors they touch. */
  lemma {:induction false} AlignedTouch(off: nat, len: nat, ss: nat, o: nat)
    requires 0 < ss
    requires Rem(off, ss) == 0 && Rem(len, ss) == 0
    ensures off <= o < off + len <==> Sec(off, ss) <= Sec(o, ss) < Sec(off, ss) + Sec(len, ss)
    ensures off <= o < off + len <==> Sec(o, ss) in Touched(off, len, ss)
  {
    WholeSectors(Sec(off, ss), Sec(len, ss), ss, o);
    if 0 < len {
      LastSector(off, len, ss);
    }
  }

  /** An aligned write into the top layer splices its bytes into the view. */
  lemma {:induction false} AlignedWriteView(layers: seq<Layer>, off: nat, b: seq<byte>, ss: nat, o: nat)
    requires 2 <= |layers| && 0 < ss
    requires Rem(off, ss) == 0 && Rem(|b|, ss) == 0
    requires off + |b| <= |layers[|layers| - 1].bytes|
    ensures var top := |layers| - 1;
            var after := layers[top := WriteLayer(layers[top], off, b, ss)];
            ViewByte(after, top, ss, o) ==
            if off <= o < off + |b| then b[o - off] else ViewByte(layers, top, ss, o)
  {
    var top := |layers| - 1;
    var after := layers[top := WriteLayer(layers[top], off, b, ss)];
    var s := Sec(o, ss);
    AlignedTouch(off, |b|, ss, o);
    if off <= o < off + |b| {
      OwnerIs(after, top, s, top);
    } else {
      OwnerIs(after, top, s, Owner(layers, top, s));
    }
  }

  /** The same on whole views. */
  lemma {:induction false} AlignedWriteContents(layers: seq<Layer>, off: nat, b: seq<byte>, ss: nat, size: nat)
    requires 2 <= |layers| && 0 < ss
    requires Rem(off, ss) == 0 && Rem(|b|, ss) == 0
    requires off + |b| <= |layers[|layers| - 1].bytes| && off + |b| <= size
    ensures View(layers[|layers| - 1 := WriteLayer(layers[|layers| - 1], off, b, ss)], ss, size) ==
            Splice(View(layers, ss, size), off, b)
  {
    var after := layers[|layers| - 1 := WriteLayer(layers[|layers| - 1], off, b, ss)];
    forall o | 0 <= o < size
      ensures View(after, ss, size)[o] == Splice(View(layers, ss, size), off, b)[o]
    {
      AlignedWriteView(layers, off, b, ss, o);
    }
  }

  /** Consecutive splices are one splice. */
  lemma {:induction false} SpliceJoin(v: seq<byte>, off: nat, a: seq<byte>, mid: nat, b: seq<byte>, ab: seq<byte>)
    requires off + |a| + |b| <= |v| && mid == off + |a| && ab == a + b
    ensures Splice(Splice(v, off, a), mid, b) == Splice(v, off, ab)
  {
  }

  /** Patching a copy of a window and writing the window back is a splice of the patch. */
  lemma {:induction false} SplicePatched(v: seq<byte>, at: nat, window: seq<byte>, r: nat, b: seq<byte>, off: nat)
    requires at + |window| <= |v| && r + |b| <= |window| && off == at + r
    requires window == v[at..at + |window|]
    ensures Splice(v, at, Splice(window, r, b)) == Splice(v, off, b)
  {
    forall o | 0 <= o < |v|
      ensures Splice(v, at, Splice(window, r, b))[o] == Splice(v, off, b)[o]
    {
      if at <= o < at + |window| {
        assert window[o - at] == v[o];
      }
    }
  }

  /** A fresh empty layer on top does not change the view. */
  lemma {:induction false} PushView(layers: seq<Layer>, f: Layer, ss: nat, size: nat)
    requires 2 <= |layers| && 0 < ss && f.alloc == {}
    ensures View(layers + [f], ss, size) == View(layers, ss, size)
  {
    var after := layers + [f];
    forall o | 0 <= o < size
      ensures View(after, ss, size)[o] == View(layers, ss, size)[o]
    {
      OwnerIs(after, |after| - 1, Sec(o, ss), Owner(layers, |layers| - 1, Sec(o, ss)));
    }
  }
}
