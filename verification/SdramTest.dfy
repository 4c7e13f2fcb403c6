/** The SDRAM address test over a memory whose address decoding may alias. */
module SdramTest {
  import opened CTypes

  /**
   * A memory of cells that keep what is stored in them, behind an arbitrary address decoder:
   * cellOf says which cell an address selects.
   */
  class Memory {
    const cells: array<u32>
    const cellOf: u32 -> nat

    constructor (c: array<u32>, f: u32 -> nat)
      ensures cells == c && cellOf == f
    {
      cells := c;
      cellOf := f;
    }

    method Put32(addr: u32, v: u32)
      requires cellOf(addr) < cells.Length
      modifies cells
      ensures cells[..] == old(cells[..])[cellOf(addr) := v]
    {
      cells[cellOf(addr)] := v;
    }

    method Get32(addr: u32) returns (v: u32)
      requires cellOf(addr) < cells.Length
      ensures v == cells[cellOf(addr)]
    {
      v := cells[cellOf(addr)];
    }
  }

  /** The address of an offset, in a 32-bit register. */
  function At(base: u32, k: int): u32 { ToU32(base + k) }

  /** The offsets the test visits: multiples of 4 below the length. */
  ghost predicate Tested(k: int, length: nat) { 0 <= k < length && k % 4 == 0 }

  /** No later tested offset selects the same cell. */
  ghost predicate LastWriter(f: u32 -> nat, base: u32, k: nat, length: nat)
    requires Tested(k, length)
  {
    forall l | Tested(l, length) && k < l :: f(At(base, l)) != f(At(base, k))
  }

  /**
   * Write every fourth offset below the length to its own address, then read back and compare:
   * the test passes exactly when no two of these addresses select the same cell, and otherwise
   * fails at the smallest offset whose cell a later one selects as well. The failing offset
   * stands for the one in the error message. The loop counter, compared as an unsigned number,
   * would wrap to 0 for a greater length and the loops would not end.
   */
  method RunTest(m: Memory, base: u32, length: nat) returns (code: int, failed: nat)
    requires length <= 0xFFFF_FFFC
    requires forall a: u32 | (a - base) % 0x1_0000_0000 < length && (a - base) % 0x1_0000_0000 % 4 == 0 ::
               m.cellOf(a) < m.cells.Length
    modifies m.cells
    ensures code == 0 || code == -1
    ensures code == 0 <==>
              forall a: u32, b: u32
                | (a - base) % 0x1_0000_0000 < length && (a - base) % 0x1_0000_0000 % 4 == 0
                  && (b - base) % 0x1_0000_0000 < length && (b - base) % 0x1_0000_0000 % 4 == 0 && a != b ::
                m.cellOf(a) != m.cellOf(b)
    ensures code == -1 ==>
              && failed < length && failed % 4 == 0
              && (exists b: u32 :: failed < (b - base) % 0x1_0000_0000 < length && (b - base) % 0x1_0000_0000 % 4 == 0
                                   && m.cellOf(b) == m.cellOf((base + failed) % 0x1_0000_0000))
              && forall a: u32, b: u32
                   | (a - base) % 0x1_0000_0000 < failed && (a - base) % 0x1_0000_0000 % 4 == 0
                     && (b - base) % 0x1_0000_0000 < length && (b - base) % 0x1_0000_0000 % 4 == 0 && a != b ::
                   m.cellOf(a) == m.cellOf(b) ==> (b - base) % 0x1_0000_0000 < (a - base) % 0x1_0000_0000
  {
    hide At, LastWriter, Latest;
    forall k | Tested(k, length) ensures m.cellOf(At(base, k)) < m.cells.Length { OffsetOf(base, k); }
    ghost var bound := WritePass(m, base, length);
    code, failed := ReadPass(m, base, length, bound);
    if code == 0 {
      LastBelow(m.cellOf, base, length, length);
    } else {
      LastBelow(m.cellOf, base, length, failed);
      LaterWriter(m.cellOf, base, length, failed);
    }
  }

  lemma LastBelow(f: u32 -> nat, base: u32, length: nat, bound: nat)
    requires bound <= length <= 0xFFFF_FFFC
    requires forall k | Tested(k, length) && k < bound :: LastWriter(f, base, k, length)
    ensures forall a: u32, b: u32
              | (a - base) % 0x1_0000_0000 < bound && (a - base) % 0x1_0000_0000 % 4 == 0
                && (b - base) % 0x1_0000_0000 < length && (b - base) % 0x1_0000_0000 % 4 == 0 && a != b ::
              f(a) == f(b) ==> (b - base) % 0x1_0000_0000 < (a - base) % 0x1_0000_0000
  {
    hide At, Tested;
    forall a: u32, b: u32
      | (a - base) % 0x1_0000_0000 < bound && (a - base) % 0x1_0000_0000 % 4 == 0
        && (b - base) % 0x1_0000_0000 < length && (b - base) % 0x1_0000_0000 % 4 == 0 && a != b
      ensures f(a) == f(b) ==> (b - base) % 0x1_0000_0000 < (a - base) % 0x1_0000_0000
    {
      var i, j := (a - base) % 0x1_0000_0000, (b - base) % 0x1_0000_0000;
      AddressOf(base, a);
      AddressOf(base, b);
      IsTested(i, length);
      IsTested(j, length);
      assert LastWriter(f, base, i, length);
    }
  }

  lemma IsTested(k: nat, length: nat)
    requires k < length && k % 4 == 0
    ensures Tested(k, length)
  {
  }

  /** Offsets and addresses correspond, also where the address wraps around. */
  lemma OffsetOf(base: u32, k: nat)
    requires k < TWO32
    ensures (At(base, k) - base) % 0x1_0000_0000 == k
  {
  }

  lemma AddressOf(base: u32, a: u32)
    ensures At(base, (a - base) % 0x1_0000_0000) == a
  {
  }

  lemma LaterWriter(f: u32 -> nat, base: u32, length: nat, k: nat)
    requires length <= 0xFFFF_FFFC && Tested(k, length) && !LastWriter(f, base, k, length)
    ensures exists b: u32 :: k < (b - base) % 0x1_0000_0000 < length && (b - base) % 0x1_0000_0000 % 4 == 0
                             && f(b) == f((base + k) % 0x1_0000_0000) && b != (base + k) % 0x1_0000_0000
    ensures ((base + k) % 0x1_0000_0000 - base) % 0x1_0000_0000 == k
  {
    hide At;
    var l :| Tested(l, length) && k < l && f(At(base, l)) == f(At(base, k));
    OffsetOf(base, l);
    OffsetOf(base, k);
    AtIs(base, k);
  }

  lemma AtIs(base: u32, k: nat)
    ensures At(base, k) == (base + k) % 0x1_0000_0000
  {
  }

  method WritePass(m: Memory, base: u32, length: nat) returns (ghost bound: nat)
    requires length <= 0xFFFF_FFFC
    requires forall k | Tested(k, length) :: m.cellOf(At(base, k)) < m.cells.Length
    modifies m.cells
    ensures bound >= length
    ensures forall j | Tested(j, length) :: Latest(m.cellOf, base, j, m.cells[m.cellOf(At(base, j))], bound, length)
  {
    var k := 0;
    while k < length
      invariant 0 <= k <= length + 3 && k % 4 == 0
      // every cell written so far holds the latest offset that selects it
      invariant forall j | Tested(j, length) && j < k ::
                  Latest(m.cellOf, base, j, m.cells[m.cellOf(At(base, j))], k, length)
    {
      assert Tested(k, length);
      ghost var before := m.cells[..];
      m.Put32(At(base, k), k);
      forall j | Tested(j, length) && j < k + 4
        ensures Latest(m.cellOf, base, j, m.cells[m.cellOf(At(base, j))], k + 4, length)
      {
        LatestStep(m.cellOf, base, j, before, k, length);
      }
      k := k + 4;
    }
    bound := k;
  }

  lemma LatestStep(f: u32 -> nat, base: u32, j: nat, before: seq<u32>, k: nat, length: nat)
    requires length <= 0xFFFF_FFFC && Tested(j, length) && Tested(k, length) && j < k + 4
    requires f(At(base, j)) < |before| && f(At(base, k)) < |before|
    requires j < k ==> Latest(f, base, j, before[f(At(base, j))], k, length)
    ensures Latest(f, base, j, before[f(At(base, k)) := k][f(At(base, j))], k + 4, length)
  {
    hide At;
    assert j < k && f(At(base, j)) != f(At(base, k)) ==> Latest(f, base, j, before[f(At(base, j))], k + 4, length) by {
      TestedApart(k, length);
    }
  }

  lemma TestedApart(k: nat, length: nat)
    requires Tested(k, length)
    ensures forall i | Tested(i, length) && i < k + 4 :: i <= k
  {
  }

  method ReadPass(m: Memory, base: u32, length: nat, ghost bound: nat) returns (code: int, failed: nat)
    requires length <= bound && length <= 0xFFFF_FFFC
    requires forall k | Tested(k, length) :: m.cellOf(At(base, k)) < m.cells.Length
    requires forall j | Tested(j, length) :: Latest(m.cellOf, base, j, m.cells[m.cellOf(At(base, j))], bound, length)
    ensures code == 0 || code == -1
    ensures code == 0 ==> forall k | Tested(k, length) :: LastWriter(m.cellOf, base, k, length)
    ensures code == -1 ==>
              && Tested(failed, length) && !LastWriter(m.cellOf, base, failed, length)
              && forall k | Tested(k, length) && k < failed :: LastWriter(m.cellOf, base, k, length)
  {
    hide At, Latest, LastWriter;
    code, failed := 0, 0;
    var k := 0;
    while k < length
      invariant 0 <= k <= length + 3 && k % 4 == 0
      invariant forall j | Tested(j, length) && j < k :: LastWriter(m.cellOf, base, j, length)
    {
      assert Tested(k, length);
      var data := m.Get32(At(base, k));
      LatestIsLast(m.cellOf, base, k, data, bound, length);
      if data != k {
        code, failed := -1, k;
        return;
      }
      k := k + 4;
    }
  }

  /** A word reads back its own offset exactly when no later word shares its cell. */
  lemma LatestIsLast(f: u32 -> nat, base: u32, k: nat, l: int, bound: nat, length: nat)
    requires length <= bound && Tested(k, length)
    requires Latest(f, base, k, l, bound, length)
    ensures l == k <==> LastWriter(f, base, k, length)
  {
    if l != k { assert Tested(l, length) && f(At(base, l)) == f(At(base, k)); }
  }

  /** l is the last tested offset below bound that selects the cell of j. */
  ghost predicate Latest(f: u32 -> nat, base: u32, j: nat, l: int, bound: nat, length: nat)
    requires Tested(j, length)
  {
    && Tested(l, length) && l < bound && f(At(base, l)) == f(At(base, j))
    && forall i | Tested(i, length) && l < i < bound :: f(At(base, i)) != f(At(base, j))
  }

  /**
   * A part with n words that repeats through the address range: no two of the tested addresses
   * share a cell, which is when the test passes, exactly when all tested words fit. Otherwise
   * already the first cell is selected again, 4 * n further on.
   */
  lemma MirroredPart(f: u32 -> nat, base: u32, length: nat, n: nat)
    requires base + length <= 0x1_0000_0000 && n > 0
    requires forall a: u32 | base <= a < base + length && (a - base) % 4 == 0 :: f(a) == (a - base) / 4 % n
    ensures length <= 4 * n <==>
              forall a: u32, b: u32
                | base <= a < base + length && (a - base) % 4 == 0
                  && base <= b < base + length && (b - base) % 4 == 0 && a != b ::
                f(a) != f(b)
    ensures length > 4 * n ==> f(base + 4 * n) == f(base)
  {
    if length > 4 * n {
      assert f(base) == 0 / 4 % n && f(base + 4 * n) == 4 * n / 4 % n;
      FirstCell(n);
    } else {
      forall a: u32, b: u32
        | base <= a < base + length && (a - base) % 4 == 0 && base <= b < base + length && (b - base) % 4 == 0 && a != b
        ensures f(a) != f(b)
      {
        OwnCell((a - base) / 4, n);
        OwnCell((b - base) / 4, n);
      }
    }
  }

  lemma OwnCell(k: nat, n: nat)
    requires k < n
    ensures k % n == k
  {
    DivModUnique(k, n, 0, k);
  }

  lemma FirstCell(n: nat)
    requires n > 0
    ensures 4 * n / 4 % n == 0 && 0 / 4 % n == 0
  {
    DivModUnique(n, n, 1, 0);
    DivModUnique(0, n, 0, 0);
  }
}
