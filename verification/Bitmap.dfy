/** The bitmaps of the DPMI server: one bit for each page or block, eight to a byte. */
module Bitmap {

  function Mask(k: nat): bv8
    requires k < 8
  {
    if k == 0 then 1 else if k == 1 then 2 else if k == 2 then 4 else if k == 3 then 8
    else if k == 4 then 16 else if k == 5 then 32 else if k == 6 then 64 else 128
  }

  /** The mask is C's `1 << k`. */
  lemma MaskIsShift(k: nat)
    requires k < 8
    ensures Mask(k) == (1 as bv8) << k
  {
    if k == 0 { assert (1 as bv8) << 0 == 1; }
    else if k == 1 { assert (1 as bv8) << 1 == 2; }
    else if k == 2 { assert (1 as bv8) << 2 == 4; }
    else if k == 3 { assert (1 as bv8) << 3 == 8; }
    else if k == 4 { assert (1 as bv8) << 4 == 16; }
    else if k == 5 { assert (1 as bv8) << 5 == 32; }
    else if k == 6 { assert (1 as bv8) << 6 == 64; }
    else { assert (1 as bv8) << 7 == 128; }
  }

  /** `MAP_SET_P`. */
  predicate IsSet(m: seq<bv8>, no: nat)
    requires no < 8 * |m|
  {
    m[no / 8] & Mask(no % 8) != 0
  }

  /** Bit `k` of a byte is its binary digit of weight 2 to the k. */
  lemma IsDigit(m: seq<bv8>, no: nat)
    requires no < 8 * |m|
    ensures IsSet(m, no) <==> (m[no / 8] >> (no % 8)) & 1 == 1
  {
    var b, k := m[no / 8], no % 8;
    if k == 0 { assert b & 1 != 0 <==> (b >> 0) & 1 == 1; }
    else if k == 1 { assert b & 2 != 0 <==> (b >> 1) & 1 == 1; }
    else if k == 2 { assert b & 4 != 0 <==> (b >> 2) & 1 == 1; }
    else if k == 3 { assert b & 8 != 0 <==> (b >> 3) & 1 == 1; }
    else if k == 4 { assert b & 16 != 0 <==> (b >> 4) & 1 == 1; }
    else if k == 5 { assert b & 32 != 0 <==> (b >> 5) & 1 == 1; }
    else if k == 6 { assert b & 64 != 0 <==> (b >> 6) & 1 == 1; }
    else { assert b & 128 != 0 <==> (b >> 7) & 1 == 1; }
  }

  /** `SET_MAP`. */
  function WithSet(m: seq<bv8>, no: nat): seq<bv8>
    requires no < 8 * |m|
  {
    m[no / 8 := m[no / 8] | Mask(no % 8)]
  }

  /** `RESET_MAP`. */
  function WithReset(m: seq<bv8>, no: nat): seq<bv8>
    requires no < 8 * |m|
  {
    m[no / 8 := m[no / 8] & !Mask(no % 8)]
  }

  lemma SetBit(b: bv8, m: bv8, n: bv8)
    requires m & n == 0 || m == n
    requires m != 0
    ensures (b | m) & n != 0 <==> m == n || b & n != 0
  {
    if m & n == 0 {
      assert (b | m) & n == (b & n) | (m & n);
    } else {
      assert (b | m) & m == m;
    }
  }

  lemma ResetBit(b: bv8, m: bv8, n: bv8)
    requires m & n == 0 || m == n
    requires m != 0
    ensures (b & !m) & n != 0 <==> m != n && b & n != 0
  {
    if m & n == 0 {
      assert n & !m == n by { assert n & !m == n ^ (m & n); }
      assert (b & !m) & n == b & (n & !m);
    } else {
      assert (b & !m) & m == 0;
    }
  }

  lemma MasksApart(j: nat, k: nat)
    requires j < 8 && k < 8
    ensures Mask(j) != 0 && (Mask(j) == Mask(k) <==> j == k) && (j != k ==> Mask(j) & Mask(k) == 0)
  {
  }

  /** Setting a bit sets that bit alone. */
  lemma SetOnly(m: seq<bv8>, no: nat, i: nat)
    requires no < 8 * |m| && i < 8 * |m|
    ensures IsSet(WithSet(m, no), i) <==> i == no || IsSet(m, i)
  {
    if i / 8 == no / 8 {
      MasksApart(no % 8, i % 8);
      SetBit(m[no / 8], Mask(no % 8), Mask(i % 8));
    }
  }

  /** Resetting a bit clears that bit alone. */
  lemma ResetOnly(m: seq<bv8>, no: nat, i: nat)
    requires no < 8 * |m| && i < 8 * |m|
    ensures IsSet(WithReset(m, no), i) <==> i != no && IsSet(m, i)
  {
    if i / 8 == no / 8 {
      MasksApart(no % 8, i % 8);
      ResetBit(m[no / 8], Mask(no % 8), Mask(i % 8));
    }
  }

  /** The numbers whose bits are set. */
  function Used(m: seq<bv8>): set<nat> {
    set i: nat | i < 8 * |m| && IsSet(m, i)
  }

  lemma UsedAfterSet(m: seq<bv8>, no: nat)
    requires no < 8 * |m|
    ensures Used(WithSet(m, no)) == Used(m) + {no}
  {
    forall i: nat | i < 8 * |m|
      ensures IsSet(WithSet(m, no), i) <==> i == no || IsSet(m, i)
    {
      SetOnly(m, no, i);
    }
  }

  lemma UsedAfterReset(m: seq<bv8>, no: nat)
    requires no < 8 * |m|
    ensures Used(WithReset(m, no)) == Used(m) - {no}
  {
    forall i: nat | i < 8 * |m|
      ensures IsSet(WithReset(m, no), i) <==> i != no && IsSet(m, i)
    {
      ResetOnly(m, no, i);
    }
  }

  /** The macros on the bitmap itself. */
  method SetMap(m: array<bv8>, no: nat)
    requires no < 8 * m.Length
    modifies m
    ensures m[..] == WithSet(old(m[..]), no) && Used(m[..]) == Used(old(m[..])) + {no}
  {
    hide Used, Mask;
    MaskIsShift(no % 8);
    UsedAfterSet(m[..], no);
    m[no / 8] := m[no / 8] | ((1 as bv8) << (no % 8));
  }

  method ResetMap(m: array<bv8>, no: nat)
    requires no < 8 * m.Length
    modifies m
    ensures m[..] == WithReset(old(m[..]), no) && Used(m[..]) == Used(old(m[..])) - {no}
  {
    hide Used, Mask;
    MaskIsShift(no % 8);
    UsedAfterReset(m[..], no);
    m[no / 8] := m[no / 8] & !((1 as bv8) << (no % 8));
  }

  method TestMap(m: array<bv8>, no: nat) returns (b: bool)
    requires no < 8 * m.Length
    ensures b <==> no in Used(m[..])
  {
    hide Mask;
    MaskIsShift(no % 8);
    b := m[no / 8] & ((1 as bv8) << (no % 8)) != 0;
    assert b == IsSet(m[..], no);
  }
}
