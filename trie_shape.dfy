/** The shape of the character trie of `KtTrie` as a value. A node is named
    by the path of characters that leads to it from the root (the tree is
    strict, so the path identifies the node), and it maps to the keys of its
    children in the order they were inserted, as the node's `linkedMapOf`
    keeps them. Module TrieSet keeps its trie in such a map; everything
    proved here is about the map alone. */
module TrieShape {

  /** The child key that marks the end of a stored word (`0.toChar()`). */
  const Terminator: char := '\0'

  type Shape = map<string, seq<char>>

  function Parent(p: string): string
    requires p != []
  {
    p[..|p| - 1]
  }

  function Last(p: string): char
    requires p != []
  {
    p[|p| - 1]
  }

  predicate ZeroFree(s: string) {
    forall i | 0 <= i < |s| :: s[i] != Terminator
  }

  predicate Distinct<X(==)>(s: seq<X>) {
    forall i, j | 0 <= i < j < |s| :: s[i] != s[j]
  }

  /** A tree rooted at the empty path in which every listed child exists,
      every node other than the root is listed by its parent, no node lists
      a key twice, and a terminator child has no children of its own. */
  ghost predicate WellShaped(sh: Shape) {
    && [] in sh
    && (forall p, c {:trigger c in sh[p]} | p in sh && c in sh[p] :: p + [c] in sh)
    && (forall q, c {:trigger q + [c] in sh} | q + [c] in sh :: q in sh && c in sh[q])
    && (forall p | p in sh :: Distinct(sh[p]))
    && (forall q {:trigger q + [Terminator] in sh} | q + [Terminator] in sh :: sh[q + [Terminator]] == [])
  }

  /** The strings the trie stores: the paths that continue with a terminator. */
  ghost function Words(sh: Shape): set<string> {
    set s | s in sh && s + [Terminator] in sh
  }

  /** The path of a stored word: a terminator-free string, then the terminator. */
  predicate IsWordPath(w: string) {
    w != [] && Last(w) == Terminator && ZeroFree(Parent(w))
  }

  /** The shape of a trie with no words: the root alone (`clear()`). */
  const Empty: Shape := map[[] := []]

  lemma EmptyShape()
    ensures WellShaped(Empty) && Words(Empty) == {}
  {
  }

  lemma WordsMember(sh: Shape, s: string)
    requires WellShaped(sh)
    ensures s in Words(sh) <==> s + [Terminator] in sh
  {
  }

  /** The terminator is never followed by another key on a path. */
  lemma NoInnerTerminator(sh: Shape, q: string, k: nat)
    requires WellShaped(sh) && q in sh && k + 1 < |q|
    ensures q[k] != Terminator
  {
    PrefixesPresent(sh, q, k + 2);
    var r := q[..k + 1];
    assert q[..k + 2] == r + [q[k + 1]];
    assert q[k + 1] in sh[r];
    assert r == q[..k] + [q[k]];
  }

  /** Every stored word is free of the terminator. */
  lemma WordsAreZeroFree(sh: Shape, s: string)
    requires WellShaped(sh) && s + [Terminator] in sh
    ensures ZeroFree(s)
  {
    var w := s + [Terminator];
    forall k | 0 <= k < |s| ensures s[k] != Terminator {
      NoInnerTerminator(sh, w, k);
    }
  }

  /** Every prefix of a node's path is a node. */
  lemma {:induction false} PrefixesPresent(sh: Shape, q: string, k: nat)
    requires WellShaped(sh) && q in sh && k <= |q|
    ensures q[..k] in sh
    decreases |q| - k
  {
    if k < |q| {
      PrefixesPresent(sh, q, k + 1);
      assert q[..k + 1] == q[..k] + [q[k]];
    } else {
      assert q[..k] == q;
    }
  }

  /** A path with an absent prefix is absent. */
  lemma PrefixAbsent(sh: Shape, q: string, k: nat)
    requires WellShaped(sh) && k <= |q| && q[..k] !in sh
    ensures q !in sh
  {
    if q in sh {
      PrefixesPresent(sh, q, k);
    }
  }

  /** A word is stored exactly when its node has a terminator child. */
  lemma WordAtNode(sh: Shape, s: string)
    requires WellShaped(sh)
    ensures s + [Terminator] in sh <==> s in sh && Terminator in sh[s]
  {
  }

  // ---------------------------------------------------------------------
  // Enumeration in insertion order (the iterator's `queueFill`)
  // ---------------------------------------------------------------------

  /** The nodes at or below `p`; it shrinks on every step down the tree. */
  ghost function Below(sh: Shape, p: string): set<string> {
    set q | q in sh && p <= q
  }

  lemma BelowShrinks(sh: Shape, p: string, c: char)
    requires WellShaped(sh) && p in sh && c in sh[p]
    ensures |Below(sh, p + [c])| < |Below(sh, p)|
  {
    var small, big := Below(sh, p + [c]), Below(sh, p);
    assert p in big - small;
    assert small <= big;
    assert |big| == |small| + |big - small|;
  }

  /** Every string stored at or below `p`, the children of each node visited
      in insertion order: a terminator child yields the node's own path, any
      other child is enumerated recursively. */
  ghost function Listing(sh: Shape, p: string): seq<string>
    requires WellShaped(sh) && p in sh
    decreases |Below(sh, p)|, |sh[p]| + 1
  {
    ListingUpTo(sh, p, |sh[p]|)
  }

  /** What the first `i` children of node `p` contribute to its listing. */
  ghost function ListingUpTo(sh: Shape, p: string, i: nat): seq<string>
    requires WellShaped(sh) && p in sh && i <= |sh[p]|
    decreases |Below(sh, p)|, i
  {
    if i == 0 then [] else ListingUpTo(sh, p, i - 1) + Entry(sh, p, sh[p][i - 1])
  }

  /** What the child `c` of node `p` contributes to its listing. */
  ghost function Entry(sh: Shape, p: string, c: char): seq<string>
    requires WellShaped(sh) && p in sh && c in sh[p]
    decreases |Below(sh, p)|, 0
  {
    if c == Terminator then [p]
    else
      BelowShrinks(sh, p, c);
      Listing(sh, p + [c])
  }

  /** The key by which `s` leaves the node `p` it passes through: the
      terminator when `s` ends at `p`. */
  function Step(p: string, s: string): char
    requires p <= s
  {
    if |s| == |p| then Terminator else s[|p|]
  }

  lemma DistinctConcat<X>(xs: seq<X>, ys: seq<X>)
    requires Distinct(xs) && Distinct(ys)
    requires forall x | x in xs :: x !in ys
    ensures Distinct(xs + ys)
  {
    var zs := xs + ys;
    forall i, j | 0 <= i < j < |zs| ensures zs[i] != zs[j] {
      if i < |xs| && |xs| <= j {
        assert zs[i] in xs && zs[j] == ys[j - |xs|];
      }
    }
  }

  lemma {:induction false} ListingSpec(sh: Shape, p: string)
    requires WellShaped(sh) && p in sh
    ensures Distinct(Listing(sh, p))
    ensures forall s :: s in Listing(sh, p) <==> StoredUnder(sh, p, s)
    decreases |Below(sh, p)|, |sh[p]| + 1
  {
    ListingUpToSpec(sh, p, |sh[p]|);
    assert sh[p][..|sh[p]|] == sh[p];
    forall s | StoredUnder(sh, p, s)
      ensures Step(p, s) in sh[p]
    {
      var w := s + [Terminator];
      if |s| == |p| {
        assert s == p;
      } else {
        PrefixesPresent(sh, w, |p| + 1);
        assert w[..|p| + 1] == p + [s[|p|]];
      }
    }
  }

  /** `s` is a stored word whose path passes through the node `p`. */
  ghost predicate StoredUnder(sh: Shape, p: string, s: string) {
    s + [Terminator] in sh && p <= s
  }

  lemma {:induction false} ListingUpToSpec(sh: Shape, p: string, i: nat)
    requires WellShaped(sh) && p in sh && i <= |sh[p]|
    ensures Distinct(ListingUpTo(sh, p, i))
    ensures forall s :: s in ListingUpTo(sh, p, i) <==> StoredUnder(sh, p, s) && Step(p, s) in sh[p][..i]
    decreases |Below(sh, p)|, i
  {
    if i > 0 {
      var c := sh[p][i - 1];
      var before := sh[p][..i - 1];
      ListingUpToSpec(sh, p, i - 1);
      EntrySpec(sh, p, c);
      var xs, ys := ListingUpTo(sh, p, i - 1), Entry(sh, p, c);
      assert ListingUpTo(sh, p, i) == xs + ys;
      assert sh[p][..i] == before + [c];
      assert c !in before by {
        assert Distinct(sh[p]);
      }
      forall x | x in xs ensures x !in ys {
        assert Step(p, x) in before;
      }
      DistinctConcat(xs, ys);
      forall s ensures s in xs + ys <==> StoredUnder(sh, p, s) && Step(p, s) in before + [c] {
        assert s in xs <==> StoredUnder(sh, p, s) && Step(p, s) in before;
        assert s in ys <==> StoredUnder(sh, p, s) && Step(p, s) == c;
      }
    }
  }

  lemma {:induction false} EntrySpec(sh: Shape, p: string, c: char)
    requires WellShaped(sh) && p in sh && c in sh[p]
    ensures Distinct(Entry(sh, p, c))
    ensures forall s :: s in Entry(sh, p, c) <==> StoredUnder(sh, p, s) && Step(p, s) == c
    decreases |Below(sh, p)|, 0
  {
    if c == Terminator {
      assert p + [c] in sh;
      forall s | StoredUnder(sh, p, s) && Step(p, s) == Terminator
        ensures s == p
      {
        WordsAreZeroFree(sh, s);
      }
    } else {
      BelowShrinks(sh, p, c);
      ListingSpec(sh, p + [c]);
      forall s ensures p + [c] <= s <==> p <= s && |s| > |p| && s[|p|] == c {
        if p <= s && |s| > |p| && s[|p|] == c {
          assert s[..|p| + 1] == p + [c];
        }
      }
    }
  }

  lemma {:induction false} DistinctCount<X>(xs: seq<X>, S: set<X>)
    requires Distinct(xs)
    requires forall x :: x in xs <==> x in S
    ensures |xs| == |S|
  {
    if xs != [] {
      var rest := xs[1..];
      forall x ensures x in rest <==> x in S - {xs[0]} {
        if x in rest {
          var k :| 0 <= k < |rest| && rest[k] == x;
          assert xs[k + 1] == x;
        }
        if x in xs && x != xs[0] {
          var k :| 0 <= k < |xs| && xs[k] == x;
          assert rest[k - 1] == x;
        }
      }
      DistinctCount(rest, S - {xs[0]});
    }
  }

  /** The iterator's queue holds every stored word exactly once. */
  lemma ListingEnumeratesWords(sh: Shape)
    requires WellShaped(sh)
    ensures Distinct(Listing(sh, []))
    ensures forall s :: s in Listing(sh, []) <==> s in Words(sh)
    ensures |Listing(sh, [])| == |Words(sh)|
  {
    ListingSpec(sh, []);
    forall s ensures s in Listing(sh, []) <==> s in Words(sh) {
      WordsMember(sh, s);
    }
    DistinctCount(Listing(sh, []), Words(sh));
  }

  // ---------------------------------------------------------------------
  // Insertion (`add`)
  // ---------------------------------------------------------------------

  /** `add` from the `i`-th key of the path `w` on: an existing child is
      followed, a missing one is appended to its parent's keys as a new node
      without children. */
  ghost function InsertFrom(sh: Shape, w: string, i: nat): Shape
    requires i <= |w| && w[..i] in sh
    decreases |w| - i
  {
    if i == |w| then sh
    else if w[..i + 1] in sh then InsertFrom(sh, w, i + 1)
    else InsertFrom(sh[w[..i] := sh[w[..i]] + [w[i]]][w[..i + 1] := []], w, i + 1)
  }

  /** The shape after `add(s)`. */
  ghost function Insert(sh: Shape, s: string): Shape
    requires [] in sh
  {
    InsertFrom(sh, s + [Terminator], 0)
  }

  /** Appending a missing child to a node keeps the shape well formed. */
  lemma AddChildWellShaped(sh: Shape, p: string, c: char)
    requires WellShaped(sh) && p in sh && p + [c] !in sh && ZeroFree(p)
    ensures WellShaped(sh[p := sh[p] + [c]][p + [c] := []])
  {
    var q := p + [c];
    var sh' := sh[p := sh[p] + [c]][q := []];
    assert c !in sh[p];
    assert Parent(q) == p && Last(q) == c;
    forall r, x | r + [x] in sh' ensures r in sh' && x in sh'[r] {
      if r + [x] == q {
        assert r == q[..|p|] == p;
      } else {
        assert r in sh && x in sh[r];
      }
    }
    forall r | r in sh' ensures Distinct(sh'[r]) {
      if r == p {
        assert Distinct(sh[p]);
      }
    }
    forall r | r + [Terminator] in sh' ensures sh'[r + [Terminator]] == [] {
      assert (r + [Terminator])[|r|] == Terminator;
      if r + [Terminator] != q {
        assert r + [Terminator] in sh;
      }
    }
  }

  lemma {:induction false} InsertFromSpec(sh: Shape, w: string, i: nat)
    requires WellShaped(sh) && IsWordPath(w) && i <= |w| && w[..i] in sh
    ensures WellShaped(InsertFrom(sh, w, i))
    ensures InsertFrom(sh, w, i).Keys == sh.Keys + (set j | i <= j <= |w| :: w[..j])
    ensures w in sh ==> InsertFrom(sh, w, i) == sh
    decreases |w| - i
  {
    var later := set j | i + 1 <= j <= |w| :: w[..j];
    if i == |w| {
      assert w[..i] == w;
      assert (set j | i <= j <= |w| :: w[..j]) == {w};
    } else {
      assert (set j | i <= j <= |w| :: w[..j]) == {w[..i]} + later;
      assert w[..i + 1] == w[..i] + [w[i]];
      if w[..i + 1] in sh {
        InsertFromSpec(sh, w, i + 1);
      } else {
        assert ZeroFree(w[..i]) by {
          assert ZeroFree(Parent(w));
          forall k | 0 <= k < i ensures w[..i][k] != Terminator {
            assert w[..i][k] == Parent(w)[k];
          }
        }
        AddChildWellShaped(sh, w[..i], w[i]);
        var sh' := sh[w[..i] := sh[w[..i]] + [w[i]]][w[..i + 1] := []];
        InsertFromSpec(sh', w, i + 1);
        assert w !in sh by {
          if w in sh {
            PrefixesPresent(sh, w, i + 1);
          }
        }
      }
    }
  }

  /** `add(s)` of a terminator-free word keeps the shape well formed, adds
      exactly the missing prefixes of `s` and its terminator, stores `s` and
      no other word, and changes nothing when `s` is already stored. */
  lemma InsertSpec(sh: Shape, s: string)
    requires WellShaped(sh) && ZeroFree(s)
    ensures WellShaped(Insert(sh, s))
    ensures Insert(sh, s).Keys == sh.Keys + (set j | 0 <= j <= |s| + 1 :: (s + [Terminator])[..j])
    ensures Words(Insert(sh, s)) == Words(sh) + {s}
    ensures s in Words(sh) ==> Insert(sh, s) == sh
  {
    var w := s + [Terminator];
    assert Parent(w) == s && w[..0] == [];
    InsertFromSpec(sh, w, 0);
    var sh' := Insert(sh, s);
    WordsMember(sh, s);
    WordsMember(sh', s);
    assert w == w[..|w|];
    assert s in Words(sh');
    forall t | t in Words(sh') ensures t in Words(sh) + {s} {
      WordsMember(sh', t);
      WordsMember(sh, t);
      var tw := t + [Terminator];
      if tw !in sh {
        var j :| 0 <= j <= |w| && tw == w[..j];
        assert tw[|t|] == Terminator && |tw| == j;
        assert w[j - 1] == Terminator;
        assert j == |w|;
        assert t == s;
      }
    }
    forall t | t in Words(sh) ensures t in Words(sh') {
      WordsMember(sh', t);
      WordsMember(sh, t);
    }
  }

  // ---------------------------------------------------------------------
  // Removal (`remove`) and clearing
  // ---------------------------------------------------------------------

  /** `xs` without the key `c`, the others kept in order
      (`LinkedHashMap.remove`). */
  function Without(xs: seq<char>, c: char): (r: seq<char>)
    ensures forall x :: x in r <==> x in xs && x != c
    ensures Distinct(xs) ==> Distinct(r)
    ensures c !in xs ==> r == xs
    ensures Distinct(xs) && c in xs ==> exists i | 0 <= i < |xs| :: xs[i] == c && r == xs[..i] + xs[i + 1..]
  {
    if xs == [] then []
    else if xs[0] == c then Without(xs[1..], c)
    else
      var rest := Without(xs[1..], c);
      assert Distinct(xs) ==> xs[0] !in xs[1..];
      [xs[0]] + rest
  }

  /** The shape after `remove(s)` of a stored word: the terminator child of
      `s`'s node goes, every other node stays (no pruning). */
  ghost function RemoveWord(sh: Shape, s: string): Shape
    requires s in sh
  {
    (sh - {s + [Terminator]})[s := Without(sh[s], Terminator)]
  }

  lemma RemoveWordSpec(sh: Shape, s: string)
    requires WellShaped(sh) && s + [Terminator] in sh
    ensures s in sh
    ensures WellShaped(RemoveWord(sh, s))
    ensures RemoveWord(sh, s).Keys == sh.Keys - {s + [Terminator]}
    ensures Words(RemoveWord(sh, s)) == Words(sh) - {s}
  {
    var w := s + [Terminator];
    assert Parent(w) == s && Last(w) == Terminator;
    WordsAreZeroFree(sh, s);
    var sh' := RemoveWord(sh, s);
    assert s != w;
    assert sh'.Keys == sh.Keys - {w};
    forall p, c | p in sh' && c in sh'[p] ensures p + [c] in sh' {
      if p == s {
        assert c in sh[s] && c != Terminator;
      } else {
        assert p + [c] in sh;
        assert Parent(p + [c]) == p;
      }
    }
    assert sh[w] == [];
    forall r, x | r + [x] in sh' ensures r in sh' && x in sh'[r] {
      assert r in sh && x in sh[r];
      assert r != w;
      if r == s {
        assert x != Terminator;
      }
    }
    forall p | p in sh' ensures Distinct(sh'[p]) {
      assert Distinct(sh[p]);
    }
    forall r | r + [Terminator] in sh' ensures sh'[r + [Terminator]] == [] {
      assert (r + [Terminator])[|r|] == Terminator;
      assert r + [Terminator] in sh;
    }
    forall t ensures t in Words(sh') <==> t in Words(sh) && t != s {
      WordsMember(sh', t);
      WordsMember(sh, t);
    }
  }
}
