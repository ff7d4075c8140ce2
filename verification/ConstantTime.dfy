/**
 The branch-free masks, selections, swaps and table lookup of constant_time.h,
 for words of any width.
 */
module ConstantTime {
  import opened Words

  /** All ones for true, all zeros for false. */
  function Mask(w: nat, b: bool): (r: nat)
    ensures IsWord(w, r)
  {
    if b then Ones(w) else 0
  }

  /** `0 - (a >> (w - 1))`. */
  function MsbMask(w: nat, a: nat): (r: nat)
    requires w >= 1 && IsWord(w, a)
    ensures r == Mask(w, Msb(w, a))
  {
    var h := Pow2(w - 1);
    DivModUnique(a, h, if Msb(w, a) then 1 else 0, Low(w, a));
    Sub(w, 0, a / h)
  }

  function LtMask(w: nat, a: nat, b: nat): (r: nat)
    requires w >= 1 && IsWord(w, a) && IsWord(w, b)
    ensures r == Mask(w, a < b)
  {
    MsbMask(w, Bitwise(XOR, w, a, Bitwise(OR, w, Bitwise(XOR, w, a, b), Bitwise(XOR, w, Sub(w, a, b), b))))
  }

  function GeMask(w: nat, a: nat, b: nat): (r: nat)
    requires w >= 1 && IsWord(w, a) && IsWord(w, b)
    ensures r == Mask(w, a >= b)
  {
    Not(w, LtMask(w, a, b))
  }

  function IsZeroMask(w: nat, a: nat): (r: nat)
    requires w >= 1 && IsWord(w, a)
    ensures r == Mask(w, a == 0)
  {
    MsbMask(w, Bitwise(AND, w, Not(w, a), Sub(w, a, 1)))
  }

  lemma {:induction false} XorIsZero(w: nat, a: nat, b: nat)
    requires IsWord(w, a) && IsWord(w, b)
    ensures Bitwise(XOR, w, a, b) == 0 <==> a == b
  {
    if w != 0 {
      XorIsZero(w - 1, Low(w, a), Low(w, b));
    }
  }

  function EqMask(w: nat, a: nat, b: nat): (r: nat)
    requires w >= 1 && IsWord(w, a) && IsWord(w, b)
    ensures r == Mask(w, a == b)
  {
    XorIsZero(w, a, b);
    IsZeroMask(w, Bitwise(XOR, w, a, b))
  }

  /** `(mask & a) | (~mask & b)`. */
  function Select(w: nat, mask: nat, a: nat, b: nat): (r: nat)
    requires IsWord(w, mask) && IsWord(w, a) && IsWord(w, b)
    ensures IsWord(w, r)
  {
    Bitwise(OR, w, Bitwise(AND, w, mask, a), Bitwise(AND, w, Not(w, mask), b))
  }

  /** A selection by a mask is a conditional. */
  lemma SelectIsConditional(w: nat, c: bool, a: nat, b: nat)
    requires IsWord(w, a) && IsWord(w, b)
    ensures Select(w, Mask(w, c), a, b) == if c then a else b
  {
    BitwiseIdentities(w, a);
    BitwiseIdentities(w, b);
  }

  /** The byte form: the 8-bit mask is widened to an unsigned int, and the result cut to a byte. */
  function SelectByte(u: nat, mask: byte, a: byte, b: byte): (r: byte)
    requires u >= 8
  {
    WideEnough(u);
    Select(u, mask, a, b) % 256
  }

  lemma WideEnough(w: nat)
    requires w >= 8
    ensures Pow2(w) == 256 * Pow2(w - 8) >= 256
  {
    Pow2Values();
    Pow2Add(8, w - 8);
  }

  /** The widened mask is all ones only in its low byte; for bytes that is enough. */
  lemma SelectByteIsConditional(u: nat, c: bool, a: byte, b: byte)
    requires u >= 8
    ensures SelectByte(u, if c then 0xff else 0, a, b) == if c then a else b
  {
    WideEnough(u);
    if c {
      SelectWideMask(u, a, b);
    } else {
      SelectIsConditional(u, false, a, b);
    }
  }

  lemma SelectWideMask(u: nat, a: byte, b: byte)
    requires u >= 8 && Pow2(u) >= 256
    ensures Select(u, 0xff, a, b) == a
  {
    Pow2Values();
    MaskedLow(u, a, b);
    OrIdentities(u, a);
  }

  lemma {:induction false} MaskedLow(u: nat, a: byte, b: byte)
    requires u >= 8 && Pow2(8) == 256 && Pow2(u) >= 256
    ensures Bitwise(AND, u, 0xff, a) == a
    ensures Bitwise(AND, u, Not(u, 0xff), b) == 0
  {
    if u == 8 {
      BitwiseIdentities(8, a);
      BitwiseIdentities(8, b);
      assert Ones(8) == 0xff && Not(8, 0xff) == 0;
    } else {
      WideEnough(u - 1);
      MaskedLow(u - 1, a, b);
      assert Low(u, Not(u, 0xff)) == Not(u - 1, 0xff);
    }
  }

  lemma MaskToByte(w: nat, c: bool)
    requires w >= 8
    ensures Mask(w, c) % 256 == if c then 0xff else 0
  {
    WideEnough(w);
  }

  // -------------------------------------------------------- swaps in place

  function XorByte(x: byte, y: byte): byte {
    Pow2Values();
    Bitwise(XOR, 8, x, y)
  }

  /** `tmp = a ^ b; tmp &= mask` */
  function Difference(mask: byte, x: byte, y: byte): (t: byte)
    requires mask == 0xff || mask == 0
    ensures XorByte(x, t) == if mask == 0xff then y else x
    ensures XorByte(y, t) == if mask == 0xff then x else y
    ensures x == y ==> XorByte(XorByte(x, t), t) == x
  {
    Pow2Values();
    SwapByte(mask, x, y);
    Bitwise(AND, 8, XorByte(x, y), mask)
  }

  lemma SwapByte(mask: byte, x: byte, y: byte)
    requires mask == 0xff || mask == 0
    ensures Pow2(8) == 256
    ensures
      var t := Bitwise(AND, 8, XorByte(x, y), mask);
      && Bitwise(XOR, 8, x, t) == (if mask == 0xff then y else x)
      && Bitwise(XOR, 8, y, t) == (if mask == 0xff then x else y)
      && (x == y ==> t == 0)
      && Bitwise(XOR, 8, x, 0) == x
  {
    Pow2Values();
    BitwiseIdentities(8, XorByte(x, y));
    BitwiseIdentities(8, x);
    BitwiseIdentities(8, y);
    XorCancels(8, x, y);
    XorCancels(8, y, x);
    XorCommutes(8, x, y);
    XorIsZero(8, x, y);
  }

  /** The buffers may be the same one, as the C pointers may. */
  method CondSwapBuff(mask: byte, a: array<byte>, b: array<byte>, len: nat)
    requires mask == 0xff || mask == 0
    requires len <= a.Length && len <= b.Length
    modifies a, b
    ensures a[..len] == if mask == 0xff then old(b[..len]) else old(a[..len])
    ensures b[..len] == if mask == 0xff then old(a[..len]) else old(b[..len])
    ensures a[len..] == old(a[len..]) && b[len..] == old(b[len..])
  {
    for i := 0 to len
      invariant forall k :: 0 <= k < i ==> a[k] == if mask == 0xff then old(b[k]) else old(a[k])
      invariant forall k :: 0 <= k < i ==> b[k] == if mask == 0xff then old(a[k]) else old(b[k])
      invariant forall k :: i <= k < a.Length ==> a[k] == old(a[k])
      invariant forall k :: i <= k < b.Length ==> b[k] == old(b[k])
    {
      var tmp := Difference(mask, a[i], b[i]);
      a[i] := XorByte(a[i], tmp);
      b[i] := XorByte(b[i], tmp);
    }
  }

  // --------------------------------------------------------- table lookup

  lemma RowFits(rowsize: nat, numrows: nat, i: nat)
    requires i < numrows
    ensures 0 <= i * rowsize && (i + 1) * rowsize == i * rowsize + rowsize <= numrows * rowsize
  {
    Distribute(numrows, i + 1, rowsize);
    MulAtLeast(numrows - i - 1, rowsize);
    MulAtLeast(i, rowsize);
  }

  /** `outc[j] |= constant_time_select_8(mask, t, 0)` */
  function OrSelected(u: nat, mask: byte, x: byte, t: byte): (r: byte)
    requires u >= 8 && (mask == 0xff || mask == 0)
    ensures mask == 0 ==> r == x
    ensures mask == 0xff && x == 0 ==> r == t
  {
    Pow2Values();
    var s := SelectByte(u, mask, t, 0);
    SelectByteIsConditional(u, mask == 0xff, t, 0);
    BitwiseIdentities(8, x);
    BitwiseIdentities(8, s);
    Bitwise(OR, 8, x, s)
  }

  /** The inner loop: OR one row into out under a byte mask. */
  method OrRow(u: nat, mask: byte, out: array<byte>, table: array<byte>, start: nat, rowsize: nat)
    requires u >= 8 && (mask == 0xff || mask == 0) && out != table
    requires rowsize <= out.Length && start + rowsize <= table.Length
    modifies out
    ensures mask == 0 ==> out[..] == old(out[..])
    ensures mask == 0xff && old(out[..rowsize]) == Zeros(rowsize) ==>
              out[..] == table[start..start + rowsize] + old(out[rowsize..])
  {
    for j := 0 to rowsize
      invariant forall k :: j <= k < out.Length ==> out[k] == old(out[k])
      invariant forall k :: 0 <= k < j ==> out[k] == OrSelected(u, mask, old(out[k]), table[start + k])
    {
      out[j] := OrSelected(u, mask, out[j], table[start + j]);
    }
    if old(out[..rowsize]) == Zeros(rowsize) {
      assert forall k :: 0 <= k < rowsize ==> old(out[k]) == old(out[..rowsize])[k] == 0;
    }
  }

  /** The index left after i rows, which is zero on row idx alone. */
  function Cursor(w: nat, idx: nat, i: nat): int {
    if i <= idx then idx - i else idx - i + Pow2(w)
  }

  lemma CursorStep(w: nat, idx: nat, i: nat)
    requires IsWord(w, 1) && IsWord(w, idx) && i < Pow2(w)
    ensures IsWord(w, Cursor(w, idx, i)) && (Cursor(w, idx, i) == 0 <==> i == idx)
    ensures Sub(w, Cursor(w, idx, i), 1) == Cursor(w, idx, i + 1)
  {
  }

  /** The selected row once the first n rows have been looked at, zeros before. */
  function Found(table: seq<byte>, rowsize: nat, idx: nat, n: nat): (r: seq<byte>)
    requires idx < n ==> 0 <= idx * rowsize && (idx + 1) * rowsize == idx * rowsize + rowsize <= |table|
    ensures |r| == rowsize
  {
    if idx < n then table[idx * rowsize..(idx + 1) * rowsize] else Zeros(rowsize)
  }

  /** w is the width of size_t, u that of unsigned int; idx wraps below zero as the loop goes on. */
  method Lookup(w: nat, u: nat, out: array<byte>, table: array<byte>, rowsize: nat, numrows: nat, idx: nat)
    requires w >= 8 && u >= 8 && IsWord(w, idx) && numrows <= Pow2(w) && out != table
    requires rowsize <= out.Length && numrows * rowsize <= table.Length
    modifies out
    ensures idx < numrows ==> 0 <= idx * rowsize <= (idx + 1) * rowsize <= table.Length
    ensures out[..] == (if idx < numrows then table[idx * rowsize..(idx + 1) * rowsize] else Zeros(rowsize))
                       + old(out[rowsize..])
  {
    forall k | 0 <= k < rowsize {
      out[k] := 0;
    }
    if idx < numrows {
      RowFits(rowsize, numrows, idx);
    }
    ghost var rest := old(out[rowsize..]);
    assert out[..] == Zeros(rowsize) + rest;
    WideEnough(w);
    var cur := idx;
    var i, t := 0, 0;
    while i < numrows
      invariant i <= numrows && t == i * rowsize
      invariant cur == Cursor(w, idx, i)
      invariant out[..] == Found(table[..], rowsize, idx, i) + rest
    {
      CursorStep(w, idx, i);
      MaskToByte(w, cur == 0);
      RowFits(rowsize, numrows, i);
      var mask: byte := IsZeroMask(w, cur) % 256;
      OrRow(u, mask, out, table, t, rowsize);
      t := t + rowsize;
      i, cur := i + 1, Sub(w, cur, 1);
    }
  }
}
