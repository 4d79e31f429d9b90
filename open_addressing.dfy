/** `KtOpenAddressingSet`: a hash set of fixed capacity 2^bits kept in one
    array with linear probing. A removed element leaves the `EMPTY` marker in
    its slot, so probe runs stay unbroken. The array's slots, the `size`
    counter and the iterator's fields are updated in place. */
module OpenAddressing {
  import opened Wrappers

  /** A slot of `storage`: never written (`null`), the `EMPTY` marker a
      removal leaves behind, or an element. */
  datatype Slot<T> = Null | Empty | Elem(value: T)

  function Pow2(n: nat): (r: nat)
    ensures r >= 1
  {
    if n == 0 then 1 else 2 * Pow2(n - 1)
  }

  lemma {:induction false} Pow2Monotone(m: nat, n: nat)
    requires m <= n
    ensures Pow2(m) <= Pow2(n)
  {
    if m < n {
      Pow2Monotone(m, n - 1);
    }
  }

  lemma {:induction false} Pow2Add(a: nat, b: nat)
    ensures Pow2(a + b) == Pow2(a) * Pow2(b)
  {
    if b > 0 {
      Pow2Add(a, b - 1);
    }
  }

  lemma Pow2Values()
    ensures Pow2(2) == 4 && Pow2(30) == 0x4000_0000 && Pow2(31) == 0x8000_0000
  {
    assert Pow2(10) == 1024;
    Pow2Add(10, 10);
    Pow2Add(20, 10);
  }

  // ---------------------------------------------------------------------
  // The capacity: `require(bits in 2..31)` and `1 shl bits`
  // ---------------------------------------------------------------------

  const IntMin: int := -0x8000_0000
  const IntRange: int := 0x1_0000_0000

  /** Kotlin `Int` arithmetic: `v` wrapped into 32-bit two's complement. */
  function Wrap32(v: int): (r: int)
    ensures IntMin <= r < IntMin + IntRange
    ensures (r - v) % IntRange == 0
    ensures IntMin <= v < IntMin + IntRange ==> r == v
  {
    (v - IntMin) % IntRange + IntMin
  }

  /** The capacity as the constructor computes it: the guard admits `bits`
      from 2 to 31, and `1 shl bits` is evaluated on a 32-bit `Int`. */
  function CapacityAsWritten(bits: int): (r: Result<int>)
    ensures r.Failure? <==> bits < 2 || 31 < bits
    ensures r.Success? ==> r.value == Wrap32(Pow2(bits))
  {
    if 2 <= bits <= 31 then Success(Wrap32(Pow2(bits))) else Failure(IllegalArgument)
  }

  /** With 31 bits the guard passes but the capacity is negative, so the
      `storage` array cannot be allocated. */
  lemma ThirtyOneBitsGiveNegativeCapacity()
    ensures CapacityAsWritten(31) == Success(IntMin)
    ensures CapacityAsWritten(31).value < 0
  {
    Pow2Values();
  }

  /** The capacity as intended: 2^bits slots, for every `bits` the guard
      should admit, which are those whose power of two is a positive `Int`.
      It agrees with the computed capacity wherever that one is positive. */
  function Capacity(bits: int): (r: Result<nat>)
    ensures r.Success? <==> 2 <= bits <= 30
    ensures r.Success? ==> 4 <= r.value <= 0x4000_0000 && r.value == Pow2(bits)
    ensures r.Success? ==> CapacityAsWritten(bits) == Success(r.value as int)
    ensures 2 <= bits <= 31 && CapacityAsWritten(bits).value > 0 ==> r.Success?
  {
    if 2 <= bits <= 30 then
      Pow2Monotone(2, bits);
      Pow2Monotone(bits, 30);
      Pow2Values();
      Success(Pow2(bits))
    else
      ThirtyOneBitsGiveNegativeCapacity();
      Failure(IllegalArgument)
  }

  // ---------------------------------------------------------------------
  // Probe runs
  // ---------------------------------------------------------------------

  /** The starting index of an element with hash code `h` in a table of `n`
      slots. The source masks the hash code with `n - 1`; on a 32-bit two's
      complement integer that mask keeps exactly the non-negative remainder
      modulo the power of two `n`. */
  function Start(h: int, n: nat): (r: nat)
    requires n > 0
    ensures r < n
  {
    h % n
  }

  /** The slot reached after `k` steps of `(index + 1) % capacity` from
      `start` in a table of `n` slots. */
  function Pos(start: nat, k: nat, n: nat): (r: nat)
    requires start < n && k < n
    ensures r < n
  {
    if start + k < n then start + k else start + k - n
  }

  /** The number of steps from `start` to slot `i`. */
  function Offset(start: nat, i: nat, n: nat): (r: nat)
    requires start < n && i < n
    ensures r < n && Pos(start, r, n) == i
  {
    if start <= i then i - start else i + n - start
  }

  /** One more step: `(index + 1) % capacity` moves to the next position of
      the run, and back to the start after `n` steps. */
  lemma NextPos(start: nat, k: nat, n: nat)
    requires start < n && k < n
    ensures k + 1 < n ==> (Pos(start, k, n) + 1) % n == Pos(start, k + 1, n)
    ensures k + 1 == n ==> (Pos(start, k, n) + 1) % n == start
  {
  }

  /** The multiset of elements held in the slots. */
  function Bag1<T>(x: Slot<T>): multiset<T>
  {
    if x.Elem? then multiset{x.value} else multiset{}
  }

  function Bag<T>(s: seq<Slot<T>>): multiset<T>
  {
    if s == [] then multiset{} else Bag1(s[0]) + Bag(s[1..])
  }

  /** The number of slots holding an element. */
  function Count<T>(s: seq<Slot<T>>): nat
  {
    if s == [] then 0 else (if s[0].Elem? then 1 else 0) + Count(s[1..])
  }

  lemma BagCons<T>(x: Slot<T>, t: seq<Slot<T>>)
    ensures Bag([x] + t) == Bag1(x) + Bag(t)
    ensures Count([x] + t) == (if x.Elem? then 1 else 0) + Count(t)
  {
    assert ([x] + t)[1..] == t;
  }

  /** The count of occupied slots is the number of elements held. */
  lemma {:induction false} CountIsSize<T>(s: seq<Slot<T>>)
    ensures Count(s) == |Bag(s)|
  {
    if s != [] {
      CountIsSize(s[1..]);
    }
  }

  lemma UnionAssoc<T>(a: multiset<T>, b: multiset<T>, c: multiset<T>)
    ensures (a + b) + c == a + (b + c)
  {
    forall y ensures ((a + b) + c)[y] == (a + (b + c))[y] {
    }
  }

  /** Writing an element into a slot holding none adds it once. */
  lemma {:induction false} BagFill<T>(s: seq<Slot<T>>, i: nat, x: T)
    requires i < |s| && !s[i].Elem?
    ensures Bag(s[i := Elem(x)]) == Bag(s) + multiset{x}
  {
    var rest := s[1..];
    var t := s[i := Elem(x)];
    assert Bag(s) == Bag1(s[0]) + Bag(rest) by {
      assert s == [s[0]] + rest;
      BagCons(s[0], rest);
    }
    if i == 0 {
      assert Bag(t) == multiset{x} + Bag(rest) by {
        assert t == [Elem(x)] + rest;
        BagCons(Elem(x), rest);
      }
    } else {
      assert Bag(t) == Bag1(s[0]) + (Bag(rest) + multiset{x}) by {
        assert t == [s[0]] + rest[i - 1 := Elem(x)];
        BagCons(s[0], rest[i - 1 := Elem(x)]);
        BagFill(rest, i - 1, x);
      }
      UnionAssoc(Bag1(s[0]), Bag(rest), multiset{x});
    }
  }

  /** Overwriting an element with `EMPTY` takes it out once: putting it
      back gives the old multiset. */
  lemma BagTombstone<T>(s: seq<Slot<T>>, i: nat)
    requires i < |s| && s[i].Elem?
    ensures Bag(s[i := Empty]) + multiset{s[i].value} == Bag(s)
  {
    var t := s[i := Empty];
    BagFill(t, i, s[i].value);
    assert t[i := Elem(s[i].value)] == s;
  }

  /** Overwriting a slot changes the count by what leaves and what comes. */
  lemma {:induction false} CountUpdate<T>(s: seq<Slot<T>>, i: nat, v: Slot<T>)
    requires i < |s|
    ensures Count(s[i := v]) == Count(s) - (if s[i].Elem? then 1 else 0) + (if v.Elem? then 1 else 0)
  {
    if i > 0 {
      CountUpdate(s[1..], i - 1, v);
      assert s[i := v][1..] == s[1..][i - 1 := v];
    }
  }

  /** An element is held iff some slot holds it. */
  lemma {:induction false} BagHas<T>(s: seq<Slot<T>>, i: nat)
    requires i < |s| && s[i].Elem?
    ensures s[i].value in Bag(s)
  {
    if i > 0 {
      BagHas(s[1..], i - 1);
    }
  }

  lemma {:induction false} BagIndex<T>(s: seq<Slot<T>>, x: T) returns (i: nat)
    requires x in Bag(s)
    ensures i < |s| && s[i] == Elem(x)
  {
    if s[0] == Elem(x) {
      i := 0;
    } else {
      var j := BagIndex(s[1..], x);
      i := j + 1;
    }
  }

  /** At most one element per slot, and a full count exactly when every
      slot holds an element. */
  lemma {:induction false} CountBound<T>(s: seq<Slot<T>>)
    ensures Count(s) <= |s|
    ensures (forall i | 0 <= i < |s| :: s[i].Elem?) ==> Count(s) == |s|
  {
    if s != [] {
      CountBound(s[1..]);
      assert forall i | 0 <= i < |s| - 1 :: s[1..][i] == s[i + 1];
    }
  }

  lemma BagOfNulls<T>(n: nat)
    ensures Bag(seq<Slot<T>>(n, _ => Null)) == multiset{}
    ensures Count(seq<Slot<T>>(n, _ => Null)) == 0
  {
    if n > 0 {
      var s := seq<Slot<T>>(n, _ => Null);
      assert s[1..] == seq<Slot<T>>(n - 1, _ => Null);
      BagOfNulls<T>(n - 1);
    }
  }

  /** No element is held in two slots. */
  ghost predicate NoDuplicates<T>(s: seq<Slot<T>>)
  {
    forall i, j | 0 <= i < |s| && 0 <= j < |s| :: Distinct(s, i, j)
  }

  /** Two different slots do not hold the same element. */
  ghost predicate Distinct<T>(s: seq<Slot<T>>, i: nat, j: nat)
    requires i < |s| && j < |s|
  {
    i != j && s[i].Elem? && s[j].Elem? ==> s[i].value != s[j].value
  }

  /** Without duplicates the slots hold a set: no multiplicity exceeds one. */
  lemma {:induction false} NoDuplicatesIsSet<T>(s: seq<Slot<T>>, x: T)
    requires NoDuplicates(s)
    ensures Bag(s)[x] <= 1
  {
    if s != [] {
      assert NoDuplicates(s[1..]) by {
        forall i, j | 0 <= i < |s| - 1 && 0 <= j < |s| - 1 ensures Distinct(s[1..], i, j) {
          assert Distinct(s, i + 1, j + 1);
        }
      }
      NoDuplicatesIsSet(s[1..], x);
      if s[0] == Elem(x) {
        forall j | 0 <= j < |s| - 1 ensures s[1..][j] != Elem(x) {
          assert Distinct(s, 0, j + 1);
        }
        if x in Bag(s[1..]) {
          var j := BagIndex(s[1..], x);
        }
      }
    }
  }

  /** No `null` slot among the first `d` positions of the run from `start`. */
  ghost predicate NoNullBefore<T>(s: seq<Slot<T>>, start: nat, d: nat)
    requires start < |s| && d <= |s|
  {
    forall k | 0 <= k < d :: s[Pos(start, k, |s|)] != Null
  }

  /** Every element lies on the probe run from its starting index with no
      `null` slot before it, so each probe finds it. */
  ghost predicate Reachable<T>(s: seq<Slot<T>>, hash: T -> int)
  {
    |s| > 0 && forall i | 0 <= i < |s| :: Reaches(s, hash, i)
  }

  /** The element in slot `i`, if any, has no `null` slot before it on its run. */
  ghost predicate Reaches<T>(s: seq<Slot<T>>, hash: T -> int, i: nat)
    requires i < |s|
  {
    s[i].Elem? ==>
      NoNullBefore(s, Start(hash(s[i].value), |s|), Offset(Start(hash(s[i].value), |s|), i, |s|))
  }

  /** Where a probe run stops: at the slot holding the element sought, at a
      free slot, or nowhere. Positions are counted in steps from the start. */
  datatype Probe = Hit(at: nat) | Vacant(at: nat) | Miss

  /** The probe of `add` from step `k` on: it stops at the element, or at
      the first `null` or `EMPTY` slot, and misses after `n` steps. */
  function AddProbe<T(==)>(s: seq<Slot<T>>, start: nat, e: T, k: nat): (r: Probe)
    requires start < |s| && k < |s|
    ensures r.Hit? || r.Vacant? ==> k <= r.at < |s|
    decreases |s| - k
  {
    var slot := s[Pos(start, k, |s|)];
    if !slot.Elem? then Vacant(k)
    else if slot.value == e then Hit(k)
    else if k + 1 == |s| then Miss
    else AddProbe(s, start, e, k + 1)
  }

  /** The probe of `remove` from step `k` on: it steps over `EMPTY` slots,
      stops at the element or at a `null` slot, and misses after `n` steps. */
  function FindProbe<T(==)>(s: seq<Slot<T>>, start: nat, e: T, k: nat): (r: Probe)
    requires start < |s| && k < |s|
    ensures r.Hit? || r.Vacant? ==> k <= r.at < |s|
    decreases |s| - k
  {
    var slot := s[Pos(start, k, |s|)];
    if slot == Null then Vacant(k)
    else if slot == Elem(e) then Hit(k)
    else if k + 1 == |s| then Miss
    else FindProbe(s, start, e, k + 1)
  }

  /** What `add`'s probe stops at, and that every slot it passed holds some
      other element. */
  lemma {:induction false} AddProbeSpec<T>(s: seq<Slot<T>>, start: nat, e: T, k: nat)
    requires start < |s| && k < |s|
    ensures var r := AddProbe(s, start, e, k);
      && (r.Hit? ==> s[Pos(start, r.at, |s|)] == Elem(e))
      && (r.Vacant? ==> !s[Pos(start, r.at, |s|)].Elem?)
      && (r.Hit? || r.Vacant? ==>
            forall j | k <= j < r.at :: s[Pos(start, j, |s|)].Elem? && s[Pos(start, j, |s|)].value != e)
      && (r.Miss? ==>
            forall j | k <= j < |s| :: s[Pos(start, j, |s|)].Elem? && s[Pos(start, j, |s|)].value != e)
    decreases |s| - k
  {
    var slot := s[Pos(start, k, |s|)];
    if slot.Elem? && slot.value != e && k + 1 < |s| {
      AddProbeSpec(s, start, e, k + 1);
    }
  }

  /** What `remove`'s probe stops at, and that every slot it passed is
      neither `null` nor the element. */
  lemma {:induction false} FindProbeSpec<T>(s: seq<Slot<T>>, start: nat, e: T, k: nat)
    requires start < |s| && k < |s|
    ensures var r := FindProbe(s, start, e, k);
      && (r.Hit? ==> s[Pos(start, r.at, |s|)] == Elem(e))
      && (r.Vacant? ==> s[Pos(start, r.at, |s|)] == Null)
      && (r.Hit? || r.Vacant? ==>
            forall j | k <= j < r.at :: s[Pos(start, j, |s|)] != Null && s[Pos(start, j, |s|)] != Elem(e))
      && (r.Miss? ==>
            forall j | k <= j < |s| :: s[Pos(start, j, |s|)] != Null && s[Pos(start, j, |s|)] != Elem(e))
    decreases |s| - k
  {
    var slot := s[Pos(start, k, |s|)];
    if slot != Null && slot != Elem(e) && k + 1 < |s| {
      FindProbeSpec(s, start, e, k + 1);
    }
  }

  /** On a reachable table the probe from an element's starting index hits
      it exactly when the element is held. */
  lemma FindProbeFinds<T>(s: seq<Slot<T>>, hash: T -> int, e: T)
    requires Reachable(s, hash)
    ensures var start := Start(hash(e), |s|);
      FindProbe(s, start, e, 0).Hit? <==> e in Bag(s)
  {
    var n := |s|;
    var start := Start(hash(e), n);
    FindProbeSpec(s, start, e, 0);
    var r := FindProbe(s, start, e, 0);
    if r.Hit? {
      BagHas(s, Pos(start, r.at, n));
    } else if e in Bag(s) {
      var i := HeldReaches(s, hash, e);
    }
  }

  /** A held element lies in some slot with no `null` slot before it on
      its run. */
  lemma HeldReaches<T>(s: seq<Slot<T>>, hash: T -> int, e: T) returns (i: nat)
    requires Reachable(s, hash) && e in Bag(s)
    ensures i < |s| && s[i] == Elem(e)
    ensures NoNullBefore(s, Start(hash(e), |s|), Offset(Start(hash(e), |s|), i, |s|))
  {
    i := BagIndex(s, e);
    assert Reaches(s, hash, i);
  }

  /** A run with neither `null` nor the element in any of its `n`
      positions: the table has no `null` slot and does not hold it. */
  lemma FullRunMisses<T>(s: seq<Slot<T>>, start: nat, e: T)
    requires start < |s|
    requires forall j | 0 <= j < |s| :: s[Pos(start, j, |s|)] != Null && s[Pos(start, j, |s|)] != Elem(e)
    ensures Null !in s && e !in Bag(s)
  {
    forall i | 0 <= i < |s| ensures s[i] != Null && s[i] != Elem(e) {
      assert Pos(start, Offset(start, i, |s|), |s|) == i;
    }
    if e in Bag(s) {
      var i := BagIndex(s, e);
    }
  }

  /** On a table with a `null` slot, or holding `e`, the probe for `e`
      stops. */
  lemma FindProbeStops<T>(s: seq<Slot<T>>, start: nat, e: T)
    requires start < |s| && (Null in s || e in Bag(s))
    ensures !FindProbe(s, start, e, 0).Miss?
  {
    FindProbeSpec(s, start, e, 0);
    if FindProbe(s, start, e, 0).Miss? {
      FullRunMisses(s, start, e);
    }
  }

  /** Writing an element into a free slot of its own run, past no `null`
      slot, keeps the table reachable. */
  lemma FillKeepsReachable<T>(s: seq<Slot<T>>, hash: T -> int, e: T, d: nat)
    requires Reachable(s, hash)
    requires d < |s| && NoNullBefore(s, Start(hash(e), |s|), d)
    ensures Reachable(s[Pos(Start(hash(e), |s|), d, |s|) := Elem(e)], hash)
  {
    var n := |s|;
    var p := Pos(Start(hash(e), n), d, n);
    var t := s[p := Elem(e)];
    forall i | 0 <= i < n ensures Reaches(t, hash, i) {
      if t[i].Elem? {
        var st := Start(hash(t[i].value), n);
        if i == p {
          assert Offset(st, i, n) == d;
        } else {
          assert Reaches(s, hash, i);
          assert NoNullBefore(s, st, Offset(st, i, n));
        }
      }
    }
  }

  /** Overwriting an element with `EMPTY` keeps the table reachable and
      without duplicates. */
  lemma TombstoneKeeps<T>(s: seq<Slot<T>>, hash: T -> int, p: nat)
    requires p < |s| && s[p].Elem?
    ensures Reachable(s, hash) ==> Reachable(s[p := Empty], hash)
    ensures NoDuplicates(s) ==> NoDuplicates(s[p := Empty])
  {
    var n := |s|;
    var t := s[p := Empty];
    if Reachable(s, hash) {
      forall i | 0 <= i < n ensures Reaches(t, hash, i) {
        if t[i].Elem? {
          var st := Start(hash(t[i].value), n);
          assert Reaches(s, hash, i);
          assert NoNullBefore(s, st, Offset(st, i, n));
        }
      }
    }
    if NoDuplicates(s) {
      forall i, j | 0 <= i < n && 0 <= j < n ensures Distinct(t, i, j) {
        assert Distinct(s, i, j);
      }
    }
  }

  /** `add` writing into the free slot its probe stopped at: the element
      is added once and the table stays reachable. */
  lemma AddAt<T>(s: seq<Slot<T>>, hash: T -> int, e: T, k: nat)
    requires Reachable(s, hash) && k < |s|
    requires AddProbe(s, Start(hash(e), |s|), e, 0) == Vacant(k)
    ensures var p := Pos(Start(hash(e), |s|), k, |s|);
      && !s[p].Elem?
      && Reachable(s[p := Elem(e)], hash)
      && Bag(s[p := Elem(e)]) == Bag(s) + multiset{e}
      && Count(s[p := Elem(e)]) == Count(s) + 1
      && (NoDuplicates(s) && e !in Bag(s) ==> NoDuplicates(s[p := Elem(e)]))
  {
    var n := |s|;
    var start := Start(hash(e), n);
    var p := Pos(start, k, n);
    AddProbeSpec(s, start, e, 0);
    FillKeepsReachable(s, hash, e, k);
    BagFill(s, p, e);
    CountUpdate(s, p, Elem(e));
    if NoDuplicates(s) && e !in Bag(s) {
      var t := s[p := Elem(e)];
      forall i, j | 0 <= i < n && 0 <= j < n ensures Distinct(t, i, j) {
        if i == p && s[j].Elem? {
          BagHas(s, j);
        } else if j == p && s[i].Elem? {
          BagHas(s, i);
        } else {
          assert Distinct(s, i, j);
        }
      }
    }
  }

  /** `add` wrapping around: every slot holds an element other than `e`. */
  lemma AddWraps<T>(s: seq<Slot<T>>, start: nat, e: T)
    requires start < |s| && AddProbe(s, start, e, 0).Miss?
    ensures e !in Bag(s) && Count(s) == |s|
  {
    var n := |s|;
    AddProbeSpec(s, start, e, 0);
    FullRunMisses(s, start, e);
    forall i | 0 <= i < n ensures s[i].Elem? {
      assert Pos(start, Offset(start, i, n), n) == i;
    }
    CountBound(s);
  }

  /** `remove` overwriting the element it found with `EMPTY`: one copy
      leaves, and the table stays reachable, and free of duplicates if it
      was. */
  lemma RemoveAt<T>(s: seq<Slot<T>>, hash: T -> int, e: T, p: nat)
    requires Reachable(s, hash) && p < |s| && s[p] == Elem(e)
    ensures e in Bag(s)
    ensures Reachable(s[p := Empty], hash)
    ensures Bag(s[p := Empty]) + multiset{e} == Bag(s)
    ensures Count(s[p := Empty]) == Count(s) - 1
    ensures NoDuplicates(s) ==> NoDuplicates(s[p := Empty])
  {
    BagHas(s, p);
    TombstoneKeeps(s, hash, p);
    BagTombstone(s, p);
    CountUpdate(s, p, Empty);
  }

  // ---------------------------------------------------------------------
  // The set
  // ---------------------------------------------------------------------

  /** The set. `hash` is the elements' `hashCode()`; `equals` is Dafny
      equality. */
  class KtOpenAddressingSet<T(==)> {
    const bits: nat
    const capacity: nat
    const hash: T -> int
    const storage: array<Slot<T>>
    var size: int

    ghost predicate Valid()
      reads this, storage
    {
      && 0 < capacity == storage.Length
      && size == Count(storage[..])
      && Reachable(storage[..], hash)
    }

    /** The elements held, with their multiplicities. */
    ghost function Contents(): multiset<T>
      reads this, storage
    {
      Bag(storage[..])
    }

    /** The constructor, with the guard that makes the capacity positive. */
    constructor (bits: nat, hash: T -> int)
      requires Capacity(bits).Success?
      ensures Valid() && NoDuplicates(storage[..]) && fresh(storage)
      ensures Contents() == multiset{} && size == 0
      ensures this.bits == bits && this.hash == hash && capacity == Pow2(bits)
      ensures Capacity(bits) == Success(capacity)
      ensures forall i | 0 <= i < capacity :: storage[i] == Null
    {
      this.bits := bits;
      this.hash := hash;
      capacity := Pow2(bits);
      storage := new Slot<T>[Pow2(bits)](_ => Null);
      size := 0;
      new;
      assert storage[..] == seq<Slot<T>>(capacity, _ => Null);
      BagOfNulls<T>(capacity);
    }

    /** `startingIndex`: where the probe run of `e` begins. */
    function StartingIndex(e: T): (r: nat)
      requires capacity > 0
      ensures r < capacity
    {
      Start(hash(e), capacity)
    }

    /** `contains`, as written: the loop ends only at a `null` slot or at the
        element, so it returns only when the table has a `null` slot or holds
        `e` (see `ContainsCanLoopForever`). */
    method Contains(e: T) returns (b: bool)
      requires Valid()
      requires Null in storage[..] || e in Contents()
      ensures b <==> e in Contents()
    {
      ghost var s := storage[..];
      var start := StartingIndex(e);
      var index := start;
      var current := storage[index];
      ghost var k := 0;
      FindProbeStops(s, start, e);
      while current != Null
        invariant 0 <= k < capacity && index == Pos(start, k, capacity) && current == s[index]
        invariant FindProbe(s, start, e, k) == FindProbe(s, start, e, 0)
        decreases capacity - k
      {
        if current == Elem(e) {
          FindProbeFinds(s, hash, e);
          return true;
        }
        if k + 1 == capacity {
          assert false;
        }
        NextPos(start, k, capacity);
        index := (index + 1) % capacity;
        k := k + 1;
        current := storage[index];
      }
      FindProbeFinds(s, hash, e);
      return false;
    }

    /** `contains` with the wrap-around check `remove` has: it also returns
        when the probe comes back to its starting index. */
    method ContainsWrapping(e: T) returns (b: bool)
      requires Valid()
      ensures b <==> e in Contents()
    {
      ghost var s := storage[..];
      var start := StartingIndex(e);
      var index := start;
      var current := storage[index];
      ghost var k := 0;
      FindProbeFinds(s, hash, e);
      while current != Null
        invariant 0 <= k < capacity && index == Pos(start, k, capacity) && current == s[index]
        invariant FindProbe(s, start, e, k) == FindProbe(s, start, e, 0)
        decreases capacity - k
      {
        if current == Elem(e) {
          return true;
        }
        NextPos(start, k, capacity);
        index := (index + 1) % capacity;
        if index == start {
          return false;
        }
        k := k + 1;
        current := storage[index];
      }
      return false;
    }

    /** `add`, as written: the probe stops at the element or at the first
        `null` or `EMPTY` slot, and fails when it wraps. An equal element
        lying past an `EMPTY` slot is not seen (see `AddCanDuplicate`), so a
        `true` result does not mean `e` was absent. */
    method Add(e: T) returns (r: Result<bool>)
      requires Valid()
      modifies this, storage
      ensures Valid()
      ensures r == Success(false) <==> AddProbe(old(storage[..]), StartingIndex(e), e, 0).Hit?
      ensures r == Success(true) <==> AddProbe(old(storage[..]), StartingIndex(e), e, 0).Vacant?
      ensures r == Failure(TableFull) <==> AddProbe(old(storage[..]), StartingIndex(e), e, 0).Miss?
      ensures r == Success(false) ==> e in old(Contents())
      ensures r == Success(true) ==> Contents() == old(Contents()) + multiset{e}
      ensures r == Failure(TableFull) ==> e !in old(Contents()) && old(size) == capacity
      ensures r != Success(true) ==> storage[..] == old(storage[..])
      ensures r == Success(true) ==>
                storage[..] == old(storage[..])[Pos(StartingIndex(e), AddProbe(old(storage[..]), StartingIndex(e), e, 0).at, capacity) := Elem(e)]
      ensures r == Success(true) && NoDuplicates(old(storage[..])) && e !in old(Contents()) ==> NoDuplicates(storage[..])
    {
      ghost var s := storage[..];
      var start := StartingIndex(e);
      var index := start;
      var current := storage[index];
      ghost var k := 0;
      assert |s| == capacity && start == Start(hash(e), |s|);
      while current != Null && current != Empty
        invariant 0 <= k < capacity && index == Pos(start, k, capacity) && current == s[index]
        invariant AddProbe(s, start, e, k) == AddProbe(s, start, e, 0)
        invariant storage[..] == s && size == old(size)
        decreases capacity - k
      {
        if current == Elem(e) {
          BagHas(s, index);
          return Success(false);
        }
        NextPos(start, k, capacity);
        index := (index + 1) % capacity;
        if index == start {
          AddWraps(s, start, e);
          return Failure(TableFull);
        }
        k := k + 1;
        current := storage[index];
      }
      AddAt(s, hash, e, k);
      storage[index] := Elem(e);
      assert storage[..] == s[index := Elem(e)];
      size := size + 1;
      return Success(true);
    }

    /** `add` as documented: nothing changes and the result is false when
        `e` is already held, anywhere along its run. */
    method AddNew(e: T) returns (r: Result<bool>)
      requires Valid() && NoDuplicates(storage[..])
      modifies this, storage
      ensures Valid() && NoDuplicates(storage[..])
      ensures r == Success(false) <==> e in old(Contents())
      ensures r == Success(true) ==> Contents() == old(Contents()) + multiset{e}
      ensures r == Failure(TableFull) ==> old(size) == capacity
      ensures r == Success(true) || r == Success(false) || r == Failure(TableFull)
      ensures r != Success(true) ==> storage[..] == old(storage[..])
    {
      var found := ContainsWrapping(e);
      if found {
        return Success(false);
      }
      r := Add(e);
    }

    /** `remove`: the probe steps over `EMPTY` slots; the element found is
        overwritten with `EMPTY`. It returns false at a `null` slot or when
        the probe wraps. */
    method Remove(e: T) returns (b: bool)
      requires Valid()
      modifies this, storage
      ensures Valid()
      ensures b ==> e in old(Contents()) && Contents() + multiset{e} == old(Contents())
      ensures !b ==> e !in old(Contents()) && Contents() == old(Contents())
      ensures size == old(size) - (if b then 1 else 0)
      ensures NoDuplicates(old(storage[..])) ==> NoDuplicates(storage[..])
      ensures !b ==> storage[..] == old(storage[..])
      ensures match FindProbe(old(storage[..]), StartingIndex(e), e, 0)
                case Hit(d) => storage[..] == old(storage[..])[Pos(StartingIndex(e), d, capacity) := Empty]
                case _ => storage[..] == old(storage[..])
    {
      ghost var s := storage[..];
      var start := StartingIndex(e);
      var index := start;
      var current := storage[index];
      ghost var k := 0;
      assert |s| == capacity && start == Start(hash(e), |s|);
      while current != Null
        invariant 0 <= k < capacity && index == Pos(start, k, capacity) && current == s[index]
        invariant FindProbe(s, start, e, k) == FindProbe(s, start, e, 0)
        invariant storage[..] == s && size == old(size)
        decreases capacity - k
      {
        if current == Elem(e) {
          RemoveAt(s, hash, e, index);
          storage[index] := Empty;
          assert storage[..] == s[index := Empty];
          size := size - 1;
          return true;
        }
        NextPos(start, k, capacity);
        index := (index + 1) % capacity;
        if index == start {
          FindProbeFinds(s, hash, e);
          return false;
        }
        k := k + 1;
        current := storage[index];
      }
      FindProbeFinds(s, hash, e);
      return false;
    }
  }

  // ---------------------------------------------------------------------
  // The iterator
  // ---------------------------------------------------------------------

  /** The first slot at or after `from` that holds an element, or `|s|`
      when there is none. */
  function NextElem<T>(s: seq<Slot<T>>, from: nat): (r: nat)
    requires from <= |s|
    ensures from <= r <= |s|
    ensures r < |s| ==> s[r].Elem?
    ensures forall j | from <= j < r :: !s[j].Elem?
    decreases |s| - from
  {
    if from == |s| || s[from].Elem? then from else NextElem(s, from + 1)
  }

  /** Slots without elements add nothing to what is left from `i` on. */
  lemma {:induction false} SkipFree<T>(s: seq<Slot<T>>, i: nat, j: nat)
    requires i <= j <= |s|
    requires forall k | i <= k < j :: !s[k].Elem?
    ensures Bag(s[i..]) == Bag(s[j..])
    decreases j - i
  {
    if i < j {
      BagStep(s, i);
      SkipFree(s, i + 1, j);
    }
  }

  /** What is left from slot `i` on: slot `i`'s element and what is left
      after it. */
  lemma BagStep<T>(s: seq<Slot<T>>, i: nat)
    requires i < |s|
    ensures Bag(s[i..]) == Bag1(s[i]) + Bag(s[i + 1..])
  {
    assert s[i..][1..] == s[i + 1..];
  }

  /** The iterator of `KtOpenAddressingSet`: it walks the slots in index
      order. `index` is the next slot holding an element (or `capacity`),
      `current` the slot of the element last returned, and `removed` is
      true before the first `next` and after a `remove`. */
  class KtOpenAddressingSetIterator<T(==)> {
    const owner: KtOpenAddressingSet<T>
    var index: nat
    var current: nat
    var removed: bool

    ghost predicate Valid()
      reads this, owner, owner.storage
    {
      && owner.Valid()
      && index <= owner.capacity
      && (index < owner.capacity ==> owner.storage[index].Elem?)
      && current < owner.capacity
      && (!removed ==> current < index && owner.storage[current].Elem?)
    }

    /** The elements still to be returned: those in the slots from `index` on. */
    ghost function Remaining(): multiset<T>
      reads this, owner, owner.storage
      requires index <= owner.storage.Length
    {
      Bag(owner.storage[index..])
    }

    /** `init`: the walk starts at the first slot holding an element; every
        element of the set is still to be returned. */
    constructor (s: KtOpenAddressingSet<T>)
      requires s.Valid()
      ensures Valid() && owner == s && removed && current == 0
      ensures index == NextElem(s.storage[..], 0)
      ensures Remaining() == s.Contents()
    {
      owner := s;
      index := 0;
      current := 0;
      removed := true;
      new;
      ghost var slots := s.storage[..];
      CalcNextIndex();
      assert s.storage[..] == slots;
      SkipFree(slots, 0, index);
      assert slots[0..] == slots;
      assert slots[index..] == s.storage[index..];
    }

    /** `calcNextIndex`: moves `index` forward to the next slot holding an
        element, or to `capacity`. */
    method CalcNextIndex()
      requires owner.Valid() && index <= owner.capacity
      modifies this`index
      ensures index == NextElem(owner.storage[..], old(index))
    {
      while index < owner.capacity && (owner.storage[index] == Null || owner.storage[index] == Empty)
        invariant old(index) <= index <= owner.capacity
        invariant NextElem(owner.storage[..], index) == NextElem(owner.storage[..], old(index))
        decreases owner.capacity - index
      {
        index := index + 1;
      }
    }

    /** `hasNext`: some element is still to be returned. */
    method HasNext() returns (b: bool)
      requires Valid()
      ensures b <==> Remaining() != multiset{}
    {
      b := index < owner.capacity;
      if b {
        BagStep(owner.storage[..], index);
        assert owner.storage[..][index..] == owner.storage[index..];
      } else {
        assert owner.storage[index..] == [];
      }
    }

    /** `next`: returns the element at `index` and moves on; fails when no
        element is left. */
    method Next() returns (r: Result<T>)
      requires Valid()
      modifies this
      ensures Valid()
      ensures old(index) == owner.capacity ==>
                r == Failure(IllegalState) && index == old(index) && removed == old(removed) && current == old(current)
      ensures old(index) < owner.capacity ==>
                && r == Success(owner.storage[old(index)].value)
                && old(Remaining()) == Remaining() + multiset{r.value}
                && current == old(index) && !removed
                && index == NextElem(owner.storage[..], old(index) + 1)
    {
      if index >= owner.capacity {
        return Failure(IllegalState);
      }
      ghost var s := owner.storage[..];
      r := Success(owner.storage[index].value);
      current := index;
      index := index + 1;
      CalcNextIndex();
      removed := false;
      BagStep(s, current);
      SkipFree(s, current + 1, index);
      assert s[current..] == owner.storage[current..];
      assert s[current + 1..] == owner.storage[current + 1..];
      assert s[index..] == owner.storage[index..];
    }

    /** `remove`: overwrites the slot of the element last returned with
        `EMPTY` and decrements `size`; fails before the first `next` and
        after a second call. */
    method Remove() returns (o: Outcome)
      requires Valid()
      modifies this, owner, owner.storage
      ensures Valid()
      ensures old(removed) ==>
                o == Fail(IllegalState) && removed && owner.storage[..] == old(owner.storage[..]) && owner.size == old(owner.size)
      ensures !old(removed) ==>
                && o == Pass && removed
                && old(owner.storage[current]).Elem?
                && owner.storage[..] == old(owner.storage[..])[current := Empty]
                && owner.Contents() + multiset{old(owner.storage[current]).value} == old(owner.Contents())
                && owner.size == old(owner.size) - 1
                && (NoDuplicates(old(owner.storage[..])) ==> NoDuplicates(owner.storage[..]))
      ensures Remaining() == old(Remaining())
      ensures index == old(index) && current == old(current)
    {
      if removed {
        return Fail(IllegalState);
      }
      ghost var s := owner.storage[..];
      removed := true;
      RemoveAt(s, owner.hash, s[current].value, current);
      owner.storage[current] := Empty;
      assert owner.storage[..] == s[current := Empty];
      assert owner.storage[index..] == s[index..];
      owner.size := owner.size - 1;
      return Pass;
    }
  }
}
