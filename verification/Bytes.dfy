/** Bytes, fixed-width unsigned integers and the big-endian layout that every
    wire format of the program uses. */
module Bytes {

  type byte = x: int | 0 <= x < 0x100
  type uint16 = x: int | 0 <= x < 0x1_0000
  type uint32 = x: int | 0 <= x < 0x1_0000_0000
  type uint64 = x: int | 0 <= x < 0x1_0000_0000_0000_0000

  const TWO64 := 0x1_0000_0000_0000_0000

  function Pow256(w: nat): (p: nat)
    ensures p > 0
  {
    if w == 0 then 1 else 256 * Pow256(w - 1)
  }

  /** The low `w` bytes of `v`, most significant first. */
  function ToBE(v: nat, w: nat): (bs: seq<byte>)
    ensures |bs| == w
  {
    if w == 0 then [] else ToBE(v / 256, w - 1) + [v % 256]
  }

  function FromBE(bs: seq<byte>): nat {
    if bs == [] then 0 else 256 * FromBE(bs[..|bs| - 1]) + bs[|bs| - 1]
  }

  lemma {:induction false} FromToBE(v: nat, w: nat)
    requires v < Pow256(w)
    ensures FromBE(ToBE(v, w)) == v
  {
    if w > 0 {
      FromToBE(v / 256, w - 1);
      assert ToBE(v, w)[..w - 1] == ToBE(v / 256, w - 1);
    }
  }

  lemma {:induction false} ToFromBE(bs: seq<byte>)
    ensures FromBE(bs) < Pow256(|bs|)
    ensures ToBE(FromBE(bs), |bs|) == bs
  {
    if bs != [] {
      var init := bs[..|bs| - 1];
      ToFromBE(init);
      assert FromBE(bs) / 256 == FromBE(init);
      assert bs == init + [bs[|bs| - 1]];
    }
  }

  lemma Widths()
    ensures Pow256(2) == 0x1_0000
    ensures Pow256(4) == 0x1_0000_0000
    ensures Pow256(8) == TWO64
  {
    assert Pow256(3) == 0x100_0000;
    assert Pow256(5) == 0x100_0000_0000;
    assert Pow256(6) == 0x1_0000_0000_0000;
    assert Pow256(7) == 0x100_0000_0000_0000;
  }

  /** The number that big-endian bytes from `lo` on spell. */
  function Word16(b: seq<byte>, lo: nat): int
    requires lo + 2 <= |b|
  {
    0x100 * (b[lo] as int) + b[lo + 1]
  }

  function Word32(b: seq<byte>, lo: nat): int
    requires lo + 4 <= |b|
  {
    0x1_0000 * Word16(b, lo) + Word16(b, lo + 2)
  }

  lemma {:induction false} LastWord(b: seq<byte>, n: nat)
    requires |b| == n + 2
    ensures FromBE(b) == 0x1_0000 * FromBE(b[..n]) + Word16(b, n)
  {
    assert b[..n + 1][..n] == b[..n];
  }

  lemma {:induction false} NoBytes()
    ensures FromBE([]) == 0
  {
  }

  /** Two, four and eight bytes spell their number in this way. */
  lemma {:induction false} Spells16(v: uint16)
    ensures Word16(ToBE(v, 2), 0) == v
  {
    hide FromBE, ToBE, Pow256;
    Widths();
    NoBytes();
    FromToBE(v, 2);
    LastWord(ToBE(v, 2), 0);
  }

  lemma {:induction false} Spells32(v: uint32)
    ensures Word32(ToBE(v, 4), 0) == v
  {
    hide FromBE, ToBE, Pow256;
    Widths();
    NoBytes();
    FromToBE(v, 4);
    var b := ToBE(v, 4);
    LastWord(b, 2);
    LastWord(b[..2], 0);
    assert b[..2][..0] == [];
  }

  lemma {:induction false} Spells64(v: uint64)
    ensures 0x1_0000_0000 * Word32(ToBE(v, 8), 0) + Word32(ToBE(v, 8), 4) == v
  {
    hide FromBE, ToBE, Pow256;
    Widths();
    NoBytes();
    FromToBE(v, 8);
    var b := ToBE(v, 8);
    LastWord(b, 6);
    LastWord(b[..6], 4);
    LastWord(b[..4], 2);
    LastWord(b[..2], 0);
    assert b[..6][..4] == b[..4] && b[..4][..2] == b[..2] && b[..2][..0] == [];
  }

  /** binary.BigEndian.PutUintN on the slice `a[lo..lo+w]`. */
  method PutBE(a: array<byte>, lo: nat, w: nat, v: nat)
    requires lo + w <= a.Length
    modifies a
    ensures a[lo..lo + w] == ToBE(v, w)
    ensures a[..lo] == old(a[..lo]) && a[lo + w..] == old(a[lo + w..])
  {
    var i, rest := w, v;
    while i > 0
      invariant 0 <= i <= w
      invariant ToBE(v, w) == ToBE(rest, i) + a[lo + i..lo + w]
      invariant a[..lo] == old(a[..lo]) && a[lo + w..] == old(a[lo + w..])
    {
      i := i - 1;
      ghost var done := a[lo + i + 1..lo + w];
      a[lo + i] := rest % 256;
      assert a[lo + i..lo + w] == [rest % 256] + done;
      rest := rest / 256;
    }
  }

  lemma ConcatAssoc<T>(a: seq<T>, b: seq<T>, c: seq<T>)
    ensures (a + b) + c == a + (b + c)
  {
  }

  function Flatten<T>(parts: seq<seq<T>>): seq<T> {
    if parts == [] then [] else Flatten(parts[..|parts| - 1]) + parts[|parts| - 1]
  }

  lemma FlattenSnoc<T>(parts: seq<seq<T>>, part: seq<T>)
    ensures Flatten(parts + [part]) == Flatten(parts) + part
  {
    assert (parts + [part])[..|parts|] == parts;
  }

  lemma {:induction false} FlattenPrefix<T>(parts: seq<seq<T>>, n: nat)
    requires n <= |parts|
    ensures Flatten(parts[..n]) <= Flatten(parts)
    decreases |parts|
  {
    if n < |parts| {
      var init := parts[..|parts| - 1];
      FlattenPrefix(init, n);
      assert init[..n] == parts[..n];
    } else {
      assert parts[..n] == parts;
    }
  }
}
