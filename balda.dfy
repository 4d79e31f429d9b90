/** The word search of `baldaSearcher` (the game Balda): a word is found in
    a letter grid when its letters can be read along a path of distinct,
    orthogonally adjacent cells. The grid is passed in already parsed; the
    file reading that produces it is not modelled. */
module Balda {

  /** A grid cell as (row, column). */
  type Cell = (int, int)

  /** The four moves of `offsets`, in order: up, right, down, left. */
  const Offsets: seq<Cell> := [(-1, 0), (0, 1), (1, 0), (0, -1)]

  /** The parsed letter file: every row as long as the first. */
  ghost predicate Rectangular(grid: seq<seq<char>>)
  {
    forall r | 0 <= r < |grid| :: |grid[r]| == |grid[0]|
  }

  predicate InGrid(grid: seq<seq<char>>, c: Cell)
  {
    0 <= c.0 < |grid| && 0 <= c.1 < |grid[c.0]|
  }

  /** `b` is one step up, down, left or right of `a`. */
  predicate Neighbours(a: Cell, b: Cell)
  {
    || (a.0 == b.0 && (b.1 == a.1 + 1 || b.1 == a.1 - 1))
    || (a.1 == b.1 && (b.0 == a.0 + 1 || b.0 == a.0 - 1))
  }

  /** The cell reached from `c` by the `k`-th move of `Offsets`. */
  function Move(c: Cell, k: nat): (n: Cell)
    requires k < |Offsets|
    ensures Neighbours(c, n)
  {
    (c.0 + Offsets[k].0, c.1 + Offsets[k].1)
  }

  /** Every neighbour is reached by one of the four moves. */
  lemma NeighbourMove(a: Cell, b: Cell) returns (k: nat)
    requires Neighbours(a, b)
    ensures k < |Offsets| && Move(a, k) == b
  {
    if b.0 == a.0 - 1 {
      k := 0;
    } else if b.1 == a.1 + 1 {
      k := 1;
    } else if b.0 == a.0 + 1 {
      k := 2;
    } else {
      k := 3;
    }
  }

  /** The cells `p` spell `word` under the rules of the game: one cell per
      letter, each inside the grid and holding its letter, consecutive
      cells adjacent, and no cell used twice. */
  ghost predicate Spells(grid: seq<seq<char>>, word: string, p: seq<Cell>)
  {
    && |p| == |word|
    && (forall k | 0 <= k < |p| :: InGrid(grid, p[k]) && grid[p[k].0][p[k].1] == word[k])
    && (forall k | 0 < k < |p| :: Neighbours(p[k - 1], p[k]))
    && (forall a, b | 0 <= a < b < |p| :: p[a] != p[b])
  }

  /** `word` can be found in the grid. */
  ghost predicate Found(grid: seq<seq<char>>, word: string)
  {
    exists p :: Spells(grid, word, p)
  }

  /** `word` can be found in the grid starting at cell `c`. */
  ghost predicate FoundFrom(grid: seq<seq<char>>, word: string, c: Cell)
  {
    exists p :: Spells(grid, word, p) && |p| > 0 && p[0] == c
  }

  /** `t` continues a path standing at `from` with the letters of `word`,
      avoiding the cells already used. */
  ghost predicate Trail(grid: seq<seq<char>>, word: string, from: Cell, used: seq<Cell>, t: seq<Cell>)
  {
    && Spells(grid, word, t)
    && (|t| > 0 ==> Neighbours(from, t[0]))
    && (forall k | 0 <= k < |t| :: t[k] !in used)
  }

  /** No continuation of the path at `c` for `word[index..]` starts with
      the `k`-th move. */
  ghost predicate NoTrailVia(grid: seq<seq<char>>, word: string, index: nat, c: Cell, used: seq<Cell>, k: nat)
    requires index <= |word| && k < |Offsets|
  {
    forall t | Trail(grid, word[index..], c, used, t) && |t| > 0 :: t[0] != Move(c, k)
  }

  /** What the first cell of a continuation satisfies. */
  lemma TrailHead(grid: seq<seq<char>>, word: string, index: nat, c: Cell, used: seq<Cell>, t: seq<Cell>)
    requires index < |word|
    ensures Trail(grid, word[index..], c, used, t) ==>
              && |t| > 0 && InGrid(grid, t[0]) && grid[t[0].0][t[0].1] == word[index]
              && t[0] !in used && Neighbours(c, t[0])
  {
    assert word[index..][0] == word[index];
  }

  /** Dropping the first cell of a spelling path that avoids `used` leaves
      a continuation of the rest of the word from that cell, which is now
      used. */
  lemma SpellsTail(grid: seq<seq<char>>, w: string, used: seq<Cell>, p: seq<Cell>)
    requires Spells(grid, w, p) && |p| > 0
    requires forall k | 0 <= k < |p| :: p[k] !in used
    ensures Trail(grid, w[1..], p[0], used + [p[0]], p[1..])
  {
    var t := p[1..];
    forall k | 0 <= k < |t| ensures t[k] !in used + [p[0]] {
      assert t[k] == p[k + 1];
    }
    forall k | 0 <= k < |t| ensures InGrid(grid, t[k]) && grid[t[k].0][t[k].1] == w[1..][k] {
      assert t[k] == p[k + 1];
    }
    forall k | 0 < k < |t| ensures Neighbours(t[k - 1], t[k]) {
      assert t[k - 1] == p[k] && t[k] == p[k + 1];
    }
    if |t| > 0 {
      assert Neighbours(p[0], t[0]) by {
        assert t[0] == p[1];
      }
    }
  }

  /** A cell holding the first letter, followed by a continuation of the
      rest of the word in which that cell counts as used, spells the word. */
  lemma SpellsCons(grid: seq<seq<char>>, w: string, used: seq<Cell>, n: Cell, t: seq<Cell>)
    requires |w| > 0 && InGrid(grid, n) && grid[n.0][n.1] == w[0] && n !in used
    requires Trail(grid, w[1..], n, used + [n], t)
    ensures Spells(grid, w, [n] + t)
    ensures forall k | 0 <= k < |t| + 1 :: ([n] + t)[k] !in used
  {
    var p := [n] + t;
    forall k | 0 <= k < |p| ensures InGrid(grid, p[k]) && grid[p[k].0][p[k].1] == w[k] && p[k] !in used {
      if k > 0 {
        assert p[k] == t[k - 1] && w[k] == w[1..][k - 1];
      }
    }
    forall k | 0 < k < |p| ensures Neighbours(p[k - 1], p[k]) {
      if k > 1 {
        assert p[k - 1] == t[k - 2] && p[k] == t[k - 1];
      }
    }
    forall a, b | 0 <= a < b < |p| ensures p[a] != p[b] {
      assert p[b] == t[b - 1];
      if a > 0 {
        assert p[a] == t[a - 1];
      }
    }
  }

  /** Dropping the first cell of a continuation leaves a continuation of
      the rest of the word from that cell, which is now used. */
  lemma TrailTail(grid: seq<seq<char>>, word: string, index: nat, c: Cell, used: seq<Cell>, t: seq<Cell>)
    requires index + 1 < |word| && Trail(grid, word[index..], c, used, t)
    ensures |t| > 0 && Trail(grid, word[index + 1..], t[0], used + [t[0]], t[1..])
  {
    assert word[index + 1..] == word[index..][1..];
    SpellsTail(grid, word[index..], used, t);
  }

  /** A cell next to `c` holding `word[index]`, followed by a continuation
      of the rest of the word, continues the path at `c`. */
  lemma TrailCons(grid: seq<seq<char>>, word: string, index: nat, c: Cell, used: seq<Cell>, n: Cell, t: seq<Cell>)
    requires index < |word| && InGrid(grid, n) && grid[n.0][n.1] == word[index]
    requires Neighbours(c, n) && n !in used
    requires Trail(grid, word[index + 1..], n, used + [n], t)
    ensures Trail(grid, word[index..], c, used, [n] + t)
  {
    assert word[index + 1..] == word[index..][1..];
    SpellsCons(grid, word[index..], used, n, t);
  }

  /** A path spelling `word` from `c` is `c` followed by a continuation of
      the rest of the word in which `c` counts as used, and back. */
  lemma FoundFromIff(grid: seq<seq<char>>, word: string, c: Cell)
    requires |word| > 0
    ensures FoundFrom(grid, word, c) <==>
              && InGrid(grid, c) && grid[c.0][c.1] == word[0]
              && (|word| == 1 || exists t :: Trail(grid, word[1..], c, [c], t))
  {
    assert [] + [c] == [c];
    if FoundFrom(grid, word, c) {
      var p :| Spells(grid, word, p) && |p| > 0 && p[0] == c;
      SpellsTail(grid, word, [], p);
    }
    if InGrid(grid, c) && grid[c.0][c.1] == word[0] {
      if |word| == 1 {
        assert Spells(grid, word, [c]);
      } else if t :| Trail(grid, word[1..], c, [c], t) {
        SpellsCons(grid, word, [], c, t);
        assert ([c] + t)[0] == c;
      }
    }
  }

  /** `checked.remove(cell)`: drops the first occurrence of `cell`. */
  function RemoveFirst(s: seq<Cell>, cell: Cell): (r: seq<Cell>)
    ensures cell !in s ==> r == s
    ensures cell in s ==> |r| == |s| - 1
  {
    if |s| == 0 then []
    else if s[0] == cell then s[1..]
    else [s[0]] + RemoveFirst(s[1..], cell)
  }

  /** Removing a cell just appended, and found nowhere before, restores the
      list as it was. */
  lemma {:induction false} RemoveLast(s: seq<Cell>, cell: Cell)
    requires cell !in s
    ensures RemoveFirst(s + [cell], cell) == s
  {
    if |s| > 0 {
      assert (s + [cell])[1..] == s[1..] + [cell];
      RemoveLast(s[1..], cell);
    }
  }

  /** A list that starts with `a + [n]` splits into `a`, then `n` and the
      rest. */
  lemma Slices(a: seq<Cell>, n: Cell, s: seq<Cell>)
    requires |s| >= |a| + 1 && s[..|a| + 1] == a + [n]
    ensures s[..|a|] == a && s[|a|..] == [n] + s[|a| + 1..]
  {
    assert s[..|a|] == s[..|a| + 1][..|a|];
    assert s[|a|..] == [s[|a|]] + s[|a| + 1..];
    assert s[|a|] == s[..|a| + 1][|a|];
  }

  /** `findNext(y, x, index)`: looks for the rest of the word, from
      `word[index]` on, along cells next to (y, x) that are not yet in
      `checked`, trying the four moves in order and backtracking. It
      answers true exactly when such a continuation exists; then `checked`
      has been extended by the cells of one. On false `checked` is back to
      what it was. */
  method FindNext(grid: seq<seq<char>>, word: string, checked: seq<Cell>, y: int, x: int, index: nat)
    returns (found: bool, checked': seq<Cell>)
    requires Rectangular(grid)
    requires 1 <= index < |word|
    ensures found ==> |checked'| >= |checked| && checked'[..|checked|] == checked
    ensures found ==> Trail(grid, word[index..], (y, x), checked, checked'[|checked|..])
    ensures !found ==> checked' == checked && forall t :: !Trail(grid, word[index..], (y, x), checked, t)
    decreases |word| - index
  {
    var current := checked;
    for k := 0 to |Offsets|
      invariant current == checked
      invariant forall j | 0 <= j < k :: NoTrailVia(grid, word, index, (y, x), checked, j)
    {
      var (dy, dx) := Offsets[k];
      var newY := y + dy;
      var newX := x + dx;
      var letter := word[index];
      ghost var n := Move((y, x), k);
      assert n == (newY, newX);
      if 0 <= newY < |grid| && 0 <= newX < |grid[0]| && (newY, newX) !in current {
        if grid[newY][newX] == letter {
          current := current + [(newY, newX)];
          if index == |word| - 1 {
            assert Trail(grid, word[index..], (y, x), checked, [n]);
            assert current[|checked|..] == [n];
            return true, current;
          }
          ghost var withNew := current;
          var f, after := FindNext(grid, word, current, newY, newX, index + 1);
          if f {
            var rest := after[|current|..];
            TrailCons(grid, word, index, (y, x), checked, n, rest);
            Slices(checked, n, after);
            return true, after;
          } else {
            current := RemoveFirst(after, (newY, newX));
            RemoveLast(checked, n);
            forall t | Trail(grid, word[index..], (y, x), checked, t) && |t| > 0 ensures t[0] != n {
              TrailTail(grid, word, index, (y, x), checked, t);
              assert !Trail(grid, word[index + 1..], n, withNew, t[1..]);
            }
          }
        } else {
          forall t | Trail(grid, word[index..], (y, x), checked, t) && |t| > 0 ensures t[0] != n {
            TrailHead(grid, word, index, (y, x), checked, t);
          }
        }
      } else {
        forall t | Trail(grid, word[index..], (y, x), checked, t) && |t| > 0 ensures t[0] != n {
          TrailHead(grid, word, index, (y, x), checked, t);
        }
      }
    }
    forall t ensures !Trail(grid, word[index..], (y, x), checked, t) {
      TrailHead(grid, word, index, (y, x), checked, t);
      if |t| > 0 && Neighbours((y, x), t[0]) {
        var k := NeighbourMove((y, x), t[0]);
        assert NoTrailVia(grid, word, index, (y, x), checked, k);
      }
    }
    return false, current;
  }

  /** One word against every start cell, in row-major order: the word is
      added to `result` exactly when it can be found in the grid. */
  method SearchWord(grid: seq<seq<char>>, word: string, result: set<string>) returns (result': set<string>)
    requires Rectangular(grid) && |word| > 0
    ensures result' == if Found(grid, word) then result + {word} else result
  {
    result' := result;
    for lineNumber := 0 to |grid|
      invariant result' == result || result' == result + {word}
      invariant result' != result ==> Found(grid, word)
      invariant forall c: Cell | 0 <= c.0 < lineNumber && FoundFrom(grid, word, c) :: word in result'
    {
      for letterNumber := 0 to |grid[lineNumber]|
        invariant result' == result || result' == result + {word}
        invariant result' != result ==> Found(grid, word)
        invariant forall c: Cell | 0 <= c.0 < lineNumber && FoundFrom(grid, word, c) :: word in result'
        invariant forall c: Cell | c.0 == lineNumber && 0 <= c.1 < letterNumber && FoundFrom(grid, word, c) :: word in result'
      {
        ghost var c := (lineNumber, letterNumber);
        FoundFromIff(grid, word, c);
        var checked: seq<Cell> := [];
        if grid[lineNumber][letterNumber] == word[0] {
          checked := checked + [(lineNumber, letterNumber)];
          assert checked == [c];
          var hit := |word| == 1;
          if !hit {
            hit, checked := FindNext(grid, word, checked, lineNumber, letterNumber, 1);
          }
          if hit {
            result' := result' + {word};
          }
        }
      }
    }
    if Found(grid, word) {
      var p :| Spells(grid, word, p);
      assert FoundFrom(grid, word, p[0]);
    }
  }

  /** `baldaSearcher` on an already parsed grid: the words of `words` that
      can be found in it. */
  method BaldaSearcher(grid: seq<seq<char>>, words: set<string>) returns (result: set<string>)
    requires Rectangular(grid)
    requires forall w | w in words :: |w| > 0
    ensures forall w :: w in result <==> w in words && Found(grid, w)
  {
    result := {};
    var rest := words;
    while rest != {}
      invariant rest <= words
      invariant forall w :: w in result <==> w in words && w !in rest && Found(grid, w)
      decreases |rest|
    {
      var word :| word in rest;
      result := SearchWord(grid, word, result);
      rest := rest - {word};
    }
  }

  /** A one-letter word is found exactly when its letter occurs in the grid. */
  lemma OneLetter(grid: seq<seq<char>>, word: string)
    requires |word| == 1
    ensures Found(grid, word) <==> exists r | 0 <= r < |grid| :: word[0] in grid[r]
  {
    if Found(grid, word) {
      var p: seq<Cell> :| Spells(grid, word, p);
      assert word[0] in grid[p[0].0];
    }
    if r :| 0 <= r < |grid| && word[0] in grid[r] {
      var col :| 0 <= col < |grid[r]| && grid[r][col] == word[0];
      assert Spells(grid, word, [(r, col)]);
    }
  }
  /** The grid and the words of the `baldaSearcher` documentation. */
  const DocGrid: seq<seq<char>> := ["ИТЫН", "КРАН", "АКВА"]
  const DocWords: set<string> := {"ТРАВА", "КРАН", "АКВА", "НАРТЫ", "РАК"}

  /** Where the letters of РАК sit in the documented grid: the only Р is
      at (1, 1), its only neighbouring А is at (1, 2), and no К is next to
      that. */
  lemma DocLetters(c: Cell)
    requires InGrid(DocGrid, c)
    ensures DocGrid[c.0][c.1] == 'Р' ==> c == (1, 1)
    ensures DocGrid[c.0][c.1] == 'А' && Neighbours((1, 1), c) ==> c == (1, 2)
    ensures DocGrid[c.0][c.1] == 'К' ==> !Neighbours((1, 2), c)
  {
    assert c.0 == 0 || c.0 == 1 || c.0 == 2;
  }

  /** РАК cannot be spelled in the documented grid. */
  lemma RakMissing(p: seq<Cell>)
    ensures !Spells(DocGrid, "РАК", p)
  {
    var w := "РАК";
    assert w[0] == 'Р' && w[1] == 'А' && w[2] == 'К';
    if |p| == 3 && forall k | 0 <= k < 3 :: InGrid(DocGrid, p[k]) && DocGrid[p[k].0][p[k].1] == w[k] {
      DocLetters(p[0]);
      DocLetters(p[1]);
      DocLetters(p[2]);
      if Neighbours(p[0], p[1]) {
        assert !Neighbours(p[1], p[2]);
      }
    }
  }

  /** A path given cell by cell spells its word in the documented grid. */
  lemma DocPath(word: string, p: seq<Cell>)
    requires |p| == |word| && forall k | 0 <= k < |p| :: InGrid(DocGrid, p[k]) && DocGrid[p[k].0][p[k].1] == word[k]
    requires forall k | 0 < k < |p| :: Neighbours(p[k - 1], p[k])
    requires forall a, b | 0 <= a < b < |p| :: p[a] != p[b]
    ensures Found(DocGrid, word)
  {
    assert Spells(DocGrid, word, p);
  }

  /** ТРАВА along the cells the documentation marks. */
  lemma TravaFound()
    ensures Found(DocGrid, "ТРАВА")
  {
    DocPath("ТРАВА", [(0, 1), (1, 1), (1, 2), (2, 2), (2, 3)]);
  }

  /** КРАН along the second row. */
  lemma KranFound()
    ensures Found(DocGrid, "КРАН")
  {
    DocPath("КРАН", [(1, 0), (1, 1), (1, 2), (1, 3)]);
  }

  /** АКВА along the third row. */
  lemma AkvaFound()
    ensures Found(DocGrid, "АКВА")
  {
    DocPath("АКВА", [(2, 0), (2, 1), (2, 2), (2, 3)]);
  }

  /** НАРТЫ along the cells the documentation marks. */
  lemma NartyFound()
    ensures Found(DocGrid, "НАРТЫ")
  {
    DocPath("НАРТЫ", [(1, 3), (1, 2), (1, 1), (0, 1), (0, 2)]);
  }

  /** The documented example: ТРАВА, КРАН, АКВА and НАРТЫ can be found and
      РАК cannot. */
  lemma DocExample()
    ensures Rectangular(DocGrid)
    ensures Found(DocGrid, "ТРАВА") && Found(DocGrid, "КРАН") && Found(DocGrid, "АКВА")
    ensures Found(DocGrid, "НАРТЫ") && !Found(DocGrid, "РАК")
  {
    TravaFound();
    KranFound();
    AkvaFound();
    NartyFound();
    forall p: seq<Cell> ensures !Spells(DocGrid, "РАК", p) {
      RakMissing(p);
    }
  }

  /** Of the documented words, all but РАК can be found. */
  lemma DocWordsFound()
    ensures forall w | w in DocWords :: Found(DocGrid, w) <==> w != "РАК"
  {
    DocExample();
    forall w | w in DocWords ensures Found(DocGrid, w) <==> w != "РАК" {
      assert w == "ТРАВА" || w == "КРАН" || w == "АКВА" || w == "НАРТЫ" || w == "РАК";
    }
  }

  /** Whatever `BaldaSearcher(DocGrid, DocWords)` returns, its contract
      makes it the documented answer: ТРАВА, КРАН, АКВА and НАРТЫ. */
  lemma DocResult(result: set<string>)
    requires forall w :: w in result <==> w in DocWords && Found(DocGrid, w)
    ensures result == {"ТРАВА", "КРАН", "АКВА", "НАРТЫ"}
  {
    DocWordsFound();
  }
}
