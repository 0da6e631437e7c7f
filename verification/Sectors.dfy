/**
 Sector arithmetic for a volume whose sector size is any positive number.

 Division, remainder and multiplication by the sector size are written by
 recursion, so that the proofs built on them stay linear; `SectorArithmetic`
 says that they are the usual operators.
 */
module Sectors {

  type byte = x: int | 0 <= x < 256

  datatype Option<+T> = None | Some(value: T)

  function Min(a: int, b: int): int { if a < b then a else b }

  function Max(a: int, b: int): int { if a < b then b else a }

  /** The byte offset at which sector `s` starts: `s * ss`. */
  function Start(s: nat, ss: nat): (o: nat)
  {
    if s == 0 then 0 else Start(s - 1, ss) + ss
  }

  /** The sector that holds byte `o`: `o / ss`. */
  function Sec(o: nat, ss: nat): (s: nat)
    requires 0 < ss
    ensures Start(s, ss) <= o < Start(s, ss) + ss
  {
    if o < ss then 0 else Sec(o - ss, ss) + 1
  }

  /** The position of byte `o` inside its sector: `o % ss`. */
  function Rem(o: nat, ss: nat): (r: nat)
    requires 0 < ss
    ensures r < ss
  {
    o - Start(Sec(o, ss), ss)
  }

  /** The three recursive definitions are multiplication, division and remainder. */
  lemma {:induction false} SectorArithmetic(o: nat, s: nat, ss: nat)
    requires 0 < ss
    ensures Start(s, ss) == s * ss
    ensures Sec(o, ss) == o / ss
    ensures Rem(o, ss) == o % ss
  {
    StartIsProduct(s, ss);
    var q := Sec(o, ss);
    StartIsProduct(q, ss);
    QuotientUnique(o, q, ss);
  }

  lemma {:induction false} StartIsProduct(s: nat, ss: nat)
    ensures Start(s, ss) == s * ss
  {
    if s != 0 {
      StartIsProduct(s - 1, ss);
      assert s * ss == (s - 1) * ss + ss;
    }
  }

  lemma {:induction false} QuotientUnique(o: nat, q: nat, ss: nat)
    requires 0 < ss
    requires q * ss <= o < q * ss + ss
    ensures o / ss == q
    ensures o % ss == o - q * ss
  {
    var d := o / ss - q;
    assert o == (o / ss) * ss + o % ss;
    assert (o / ss) * ss == q * ss + d * ss;
    ProductGap(d, ss);
  }

  lemma {:induction false} ProductGap(d: int, ss: nat)
    ensures d >= 1 ==> d * ss >= ss
    ensures d <= -1 ==> d * ss + ss <= 0
  {
    if d >= 1 {
      assert d * ss == (d - 1) * ss + ss;
    } else {
      assert d * ss == (d + 1) * ss - ss;
    }
  }

  lemma {:induction false} StartMono(a: nat, b: nat, ss: nat)
    requires a <= b
    ensures Start(a, ss) <= Start(b, ss)
    ensures a < b ==> Start(a, ss) + ss <= Start(b, ss)
    decreases b
  {
    if a < b {
      StartMono(a, b - 1, ss);
    }
  }

  lemma {:induction false} StartAdd(a: nat, b: nat, ss: nat)
    ensures Start(a + b, ss) == Start(a, ss) + Start(b, ss)
  {
    if b != 0 {
      StartAdd(a, b - 1, ss);
    }
  }

  /** Only one sector holds a byte. */
  lemma {:induction false} SecAt(o: nat, s: nat, ss: nat)
    requires 0 < ss
    requires Start(s, ss) <= o < Start(s, ss) + ss
    ensures Sec(o, ss) == s
  {
    var q := Sec(o, ss);
    if q < s {
      StartMono(q, s, ss);
    } else if s < q {
      StartMono(s, q, ss);
    }
  }

  lemma {:induction false} SecMono(a: nat, b: nat, ss: nat)
    requires 0 < ss
    requires a <= b
    ensures Sec(a, ss) <= Sec(b, ss)
  {
    if Sec(b, ss) < Sec(a, ss) {
      StartMono(Sec(b, ss), Sec(a, ss), ss);
    }
  }

  /** Whole sectors from `a` on hold exactly the bytes of those sectors. */
  lemma {:induction false} WholeSectors(a: nat, n: nat, ss: nat, o: nat)
    requires 0 < ss
    ensures Start(a, ss) <= o < Start(a, ss) + Start(n, ss) <==> a <= Sec(o, ss) < a + n
  {
    StartAdd(a, n, ss);
    var s := Sec(o, ss);
    if s < a {
      StartMono(s, a, ss);
    } else if a + n <= s {
      StartMono(a + n, s, ss);
    } else {
      StartMono(a, s, ss);
      StartMono(s, a + n, ss);
    }
  }

  /** Aligned offsets are closed under sums, and their sectors add up. */
  lemma {:induction false} AlignedAdd(a: nat, b: nat, ss: nat)
    requires 0 < ss
    requires Rem(a, ss) == 0
    ensures Sec(a + b, ss) == Sec(a, ss) + Sec(b, ss)
    ensures Rem(a + b, ss) == Rem(b, ss)
  {
    StartAdd(Sec(a, ss), Sec(b, ss), ss);
    SecAt(a + b, Sec(a, ss) + Sec(b, ss), ss);
  }

  /** The start of a sector is aligned. */
  lemma {:induction false} StartAligned(s: nat, ss: nat)
    requires 0 < ss
    ensures Sec(Start(s, ss), ss) == s
    ensures Rem(Start(s, ss), ss) == 0
  {
    SecAt(Start(s, ss), s, ss);
  }

  /** A byte lies below a sector boundary exactly when its whole sector does. */
  lemma {:induction false} SectorFits(o: nat, t: nat, ss: nat)
    requires 0 < ss
    ensures o < Start(t, ss) <==> Start(Sec(o, ss), ss) + ss <= Start(t, ss)
  {
    WholeSectors(0, t, ss, o);
    if Sec(o, ss) < t {
      StartMono(Sec(o, ss), t, ss);
    }
  }

  /** The boundaries that cut an extent into a head, whole sectors and a tail are aligned. */
  lemma {:induction false} CutPoints(off: nat, len: nat, ss: nat)
    requires 0 < ss
    requires ss - Rem(off, ss) < len
    ensures var head, tail := off + (ss - Rem(off, ss)), off + len - Rem(off + len, ss);
            && Rem(off - Rem(off, ss), ss) == 0
            && head == Start(Sec(off, ss) + 1, ss) && tail == Start(Sec(off + len, ss), ss)
            && Rem(head, ss) == 0 && Rem(tail, ss) == 0
            && head <= tail && Rem(tail - head, ss) == 0
  {
    var a, b := Sec(off, ss) + 1, Sec(off + len, ss);
    StartAligned(a - 1, ss);
    StartAligned(a, ss);
    StartAligned(b, ss);
    if b < a {
      StartMono(b, a - 1, ss);
    }
    StartAdd(a, b - a, ss);
    StartAligned(b - a, ss);
  }
}
