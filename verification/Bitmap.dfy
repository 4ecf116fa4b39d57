/** The packed bitmap of the page allocator: eight pages to a byte (kernel/kernel.c:107-120). */
module Bitmap {

  predicate Bit(b: bv8, k: nat)
    requires k < 8
  {
    (b >> k) & 1 == 1
  }

  function With(b: bv8, k: nat): bv8
    requires k < 8
  {
    b | (1 << k)
  }

  function Without(b: bv8, k: nat): bv8
    requires k < 8
  {
    b & !(1 << k)
  }

  lemma WithSpec(b: bv8, k: nat, j: nat)
    requires k < 8 && j < 8
    ensures Bit(With(b, k), j) == (j == k || Bit(b, j))
  {
    assert k == 0 || k == 1 || k == 2 || k == 3 || k == 4 || k == 5 || k == 6 || k == 7;
    assert j == 0 || j == 1 || j == 2 || j == 3 || j == 4 || j == 5 || j == 6 || j == 7;
  }

  lemma WithoutSpec(b: bv8, k: nat, j: nat)
    requires k < 8 && j < 8
    ensures Bit(Without(b, k), j) == (j != k && Bit(b, j))
  {
    assert k == 0 || k == 1 || k == 2 || k == 3 || k == 4 || k == 5 || k == 6 || k == 7;
    if j == 0 { } else if j == 1 { } else if j == 2 { } else if j == 3 { }
    else if j == 4 { } else if j == 5 { } else if j == 6 { } else { assert j == 7; }
  }

  /** One bool per managed page. */
  ghost function Unpack(bytes: seq<bv8>, total: nat): (used: seq<bool>)
    requires total <= 8 * |bytes|
    ensures |used| == total
  {
    seq(total, i requires 0 <= i < total => Bit(bytes[i / 8], i % 8))
  }

  lemma UnpackSet(bytes: seq<bv8>, total: nat, i: nat)
    requires total <= 8 * |bytes| && i < total
    ensures Unpack(bytes[i / 8 := With(bytes[i / 8], i % 8)], total) == Unpack(bytes, total)[i := true]
  {
    hide Bit, With;
    var r := bytes[i / 8 := With(bytes[i / 8], i % 8)];
    forall j | 0 <= j < total ensures Unpack(r, total)[j] == Unpack(bytes, total)[i := true][j] {
      WithSpec(bytes[i / 8], i % 8, j % 8);
    }
  }

  lemma UnpackClear(bytes: seq<bv8>, total: nat, i: nat)
    requires total <= 8 * |bytes| && i < total
    ensures Unpack(bytes[i / 8 := Without(bytes[i / 8], i % 8)], total) == Unpack(bytes, total)[i := false]
  {
    hide Bit, Without;
    var r := bytes[i / 8 := Without(bytes[i / 8], i % 8)];
    forall j | 0 <= j < total ensures Unpack(r, total)[j] == Unpack(bytes, total)[i := false][j] {
      WithoutSpec(bytes[i / 8], i % 8, j % 8);
    }
  }
}
