/** Small tables showing where `KtOpenAddressingSet` as written departs
    from what the set promises. */
module OpenAddressingFindings {
  import opened OpenAddressing

  /** Every element hashes to 0. */
  function ZeroHash(x: int): int { 0 }

  /** With every hash equal and capacity 4, `add(3)`, `add(7)`, `remove(3)`
      leave `[EMPTY, 7, null, null]`: each probe below is the one `Add` and
      `Remove` follow, and each table the next. The table is valid and
      holds 7 once, yet the probe of a second `add(7)` stops at the
      `EMPTY` slot and returns true, and writing there stores 7 twice. */
  lemma AddCanDuplicate()
    ensures var s0: seq<Slot<int>> := [Null, Null, Null, Null];
            var s1 := [Elem(3), Null, Null, Null];
            var s2 := [Elem(3), Elem(7), Null, Null];
            var s3 := [Empty, Elem(7), Null, Null];
            && AddProbe(s0, Start(ZeroHash(3), 4), 3, 0) == Vacant(0) && s1 == s0[0 := Elem(3)]
            && AddProbe(s1, Start(ZeroHash(7), 4), 7, 0) == Vacant(1) && s2 == s1[1 := Elem(7)]
            && FindProbe(s2, Start(ZeroHash(3), 4), 3, 0) == Hit(0) && s3 == s2[0 := Empty]
            && Reachable(s3, ZeroHash) && NoDuplicates(s3) && Bag(s3)[7] == 1
            && AddProbe(s3, Start(ZeroHash(7), 4), 7, 0) == Vacant(0)
            && Bag(s3[0 := Elem(7)])[7] == 2 && !NoDuplicates(s3[0 := Elem(7)])
  {
    var s3: seq<Slot<int>> := [Empty, Elem(7), Null, Null];
    assert Reaches(s3, ZeroHash, 1) by {
      assert Offset(0, 1, 4) == 1;
    }
    assert Reachable(s3, ZeroHash);
    var s4 := s3[0 := Elem(7)];
    assert !Distinct(s4, 0, 1);
  }

  /** The identity hash. */
  function SameHash(x: int): int { x }

  /** Four `add`s fill a table of capacity 4 with no `null` slot left; the
      table is valid, yet the probe of `contains(5)` meets neither `null`
      nor 5 in all four steps, so the loop of `contains` as written never
      ends (`Contains` requires a `null` slot or the element). */
  lemma ContainsCanLoopForever()
    ensures var s: seq<Slot<int>> := [Elem(0), Elem(1), Elem(2), Elem(3)];
            && Reachable(s, SameHash) && NoDuplicates(s)
            && Null !in s && 5 !in Bag(s)
            && FindProbe(s, Start(SameHash(5), 4), 5, 0) == Miss
  {
    var s: seq<Slot<int>> := [Elem(0), Elem(1), Elem(2), Elem(3)];
    forall i | 0 <= i < 4 ensures Reaches(s, SameHash, i) {
      assert Offset(i, i, 4) == 0;
    }
    FindProbeFinds(s, SameHash, 5);
  }
}
