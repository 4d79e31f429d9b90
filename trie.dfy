/** `KtTrie`: a mutable set of strings kept in a character trie, and its
    iterator. The trie's nodes are held in a map field (module TrieShape
    describes its form) that `add`, `remove` and `clear` update in place. */
module TrieSet {
  import opened Wrappers
  import opened TrieShape

  /** A set of strings kept in a character trie. Each node is named by the
      path of keys that leads to it from the root; `nodes` maps each node to
      the keys of its children in insertion order (the node's `linkedMapOf`),
      and a node's child under key `c` is the node at the path extended by `c`. */
  class KtTrie {
    var nodes: Shape
    var size: int

    ghost predicate Valid()
      reads this
    {
      WellShaped(nodes) && size == |Contents()|
    }

    /** The stored strings. */
    ghost function Contents(): set<string>
      reads this
    {
      Words(nodes)
    }

    constructor ()
      ensures Valid() && Contents() == {} && size == 0
    {
      nodes := Empty;
      size := 0;
      EmptyShape();
    }

    /** `clear()`: the root loses its children and the count drops to zero. */
    method Clear()
      requires Valid()
      modifies this
      ensures Valid() && Contents() == {} && size == 0
      ensures nodes == Empty
    {
      nodes := Empty;
      size := 0;
      EmptyShape();
    }

    /** `findNode`: follows `element` key by key from the root; the node
        found is named by its path. */
    method FindNode(element: string) returns (r: Option<string>)
      requires WellShaped(nodes)
      ensures r.Some? <==> element in nodes
      ensures r.Some? ==> r.value == element
    {
      var current: string := [];
      for i := 0 to |element|
        invariant current == element[..i] && current in nodes
      {
        var c := element[i];
        assert element[..i + 1] == current + [c];
        if c !in nodes[current] {
          PrefixAbsent(nodes, element, i + 1);
          return None;
        }
        current := current + [c];
      }
      assert element[..|element|] == element;
      return Some(current);
    }

    /** `contains`: the path of `element` continues with a terminator. */
    method Contains(element: string) returns (b: bool)
      requires Valid()
      ensures b <==> element in Contents()
    {
      var node := FindNode(element + [Terminator]);
      b := node.Some?;
      WordsMember(nodes, element);
    }

    /** `add`: walks the path of `element` and its terminator, creating the
        missing nodes; it reports whether any node was created. */
    method Add(element: string) returns (modified: bool)
      requires Valid() && ZeroFree(element)
      modifies this
      ensures Valid()
      ensures modified <==> element !in old(Contents())
      ensures Contents() == old(Contents()) + {element}
      ensures size == old(size) + (if modified then 1 else 0)
      ensures nodes == Insert(old(nodes), element)
    {
      var word := element + [Terminator];
      var current: string := [];
      modified := false;
      ghost var target := Insert(nodes, element);
      InsertSpec(nodes, element);
      WordsMember(nodes, element);
      assert IsWordPath(word) by {
        assert Parent(word) == element;
      }
      for i := 0 to |word|
        invariant WellShaped(nodes) && current == word[..i] && current in nodes
        invariant InsertFrom(nodes, word, i) == target
        invariant !modified ==> nodes == old(nodes)
        invariant modified ==> nodes[current] == []
        invariant modified <==> current !in old(nodes)
        invariant size == old(size)
      {
        var c := word[i];
        assert word[..i + 1] == current + [c];
        if c !in nodes[current] {
          assert ZeroFree(current) by {
            forall k | 0 <= k < i ensures current[k] != Terminator {
              assert current[k] == element[k];
            }
          }
          AddChildWellShaped(nodes, current, c);
          nodes := nodes[current := nodes[current] + [c]][current + [c] := []];
          modified := true;
        }
        current := current + [c];
      }
      assert word[..|word|] == word;
      assert nodes == target;
      if modified {
        size := size + 1;
      }
    }

    /** `remove`: deletes the terminator child of `element`'s node and
        nothing else; the path leading to it stays. */
    method Remove(element: string) returns (b: bool)
      requires Valid()
      modifies this
      ensures Valid()
      ensures b <==> element in old(Contents())
      ensures Contents() == old(Contents()) - {element}
      ensures size == old(size) - (if b then 1 else 0)
      ensures nodes.Keys == old(nodes).Keys - {element + [Terminator]}
      ensures b ==> element in old(nodes) && nodes == RemoveWord(old(nodes), element)
      ensures !b ==> nodes == old(nodes)
    {
      WordsMember(nodes, element);
      WordAtNode(nodes, element);
      var node := FindNode(element);
      if node.None? {
        return false;
      }
      if Terminator in nodes[element] {
        RemoveWordSpec(nodes, element);
        nodes := (nodes - {element + [Terminator]})[element := Without(nodes[element], Terminator)];
        size := size - 1;
        return true;
      }
      return false;
    }
  }

  /** The iterator of `KtTrie`. Its constructor copies every stored string
      into a queue (`queueFill`), children visited in insertion order; `next`
      takes from that queue and `remove` deletes the last string taken. */
  class TrieIterator {
    const trie: KtTrie
    var queue: seq<string>
    var currentKey: string
    var removed: bool
    /** The queue as filled, the strings taken so far, and those removed
        through this iterator. */
    ghost const initial: seq<string>
    ghost var yielded: seq<string>
    ghost var removedKeys: set<string>

    ghost predicate Valid()
      reads this, trie
    {
      && trie.Valid()
      && yielded + queue == initial
      && Distinct(initial)
      && currentKey == (if yielded == [] then [] else yielded[|yielded| - 1])
      && (forall s | s in removedKeys :: s in yielded)
      && (!removed && yielded != [] ==> currentKey !in removedKeys)
      && (forall s :: s in trie.Contents() <==> s in initial && s !in removedKeys)
    }

    constructor (t: KtTrie)
      requires t.Valid()
      ensures Valid() && trie == t
      ensures queue == initial == Listing(t.nodes, [])
      ensures yielded == [] && currentKey == [] && !removed
      ensures Distinct(queue)
      ensures forall s :: s in queue <==> s in t.Contents()
      ensures |queue| == t.size
    {
      trie := t;
      queue := [];
      currentKey := [];
      removed := false;
      initial := Listing(t.nodes, []);
      yielded := [];
      removedKeys := {};
      new;
      QueueFill([]);
      ListingEnumeratesWords(t.nodes);
      assert queue == initial;
    }

    /** `queueFill`: appends the strings at and below the node `prefix`
        to the queue. */
    method QueueFill(prefix: string)
      requires WellShaped(trie.nodes) && prefix in trie.nodes
      modifies this`queue
      ensures queue == old(queue) + Listing(trie.nodes, prefix)
      decreases |Below(trie.nodes, prefix)|
    {
      var keys := trie.nodes[prefix];
      var i := 0;
      while i < |keys|
        invariant 0 <= i <= |keys|
        invariant queue == old(queue) + ListingUpTo(trie.nodes, prefix, i)
      {
        var key := keys[i];
        if key == Terminator {
          queue := queue + [prefix];
        } else {
          BelowShrinks(trie.nodes, prefix, key);
          QueueFill(prefix + [key]);
        }
        i := i + 1;
      }
    }

    /** `hasNext`: some string is still to be taken. */
    method HasNext() returns (b: bool)
      requires Valid()
      ensures b <==> |yielded| < |initial|
    {
      b := queue != [];
    }

    /** `next`: takes the head of the queue; fails when the queue is empty. */
    method Next() returns (r: Result<string>)
      requires Valid()
      modifies this
      ensures Valid()
      ensures old(queue) == [] ==>
                && r == Failure(IllegalState) && queue == old(queue) && yielded == old(yielded)
                && currentKey == old(currentKey) && removed == old(removed)
      ensures old(queue) != [] ==>
                && r == Success(old(queue)[0])
                && yielded == old(yielded) + [r.value]
                && queue == old(queue)[1..]
                && currentKey == r.value && !removed
      ensures removedKeys == old(removedKeys)
    {
      if queue == [] {
        return Failure(IllegalState);
      }
      currentKey := queue[0];
      queue := queue[1..];
      removed := false;
      yielded := yielded + [currentKey];
      assert currentKey !in old(yielded) by {
        var n := |old(yielded)|;
        assert initial == old(yielded) + [currentKey] + queue;
        forall k | 0 <= k < n ensures old(yielded)[k] != currentKey {
          assert initial[k] == old(yielded)[k] && initial[n] == currentKey;
        }
      }
      return Success(currentKey);
    }

    /** `remove`: deletes the string last taken from the trie; fails before
        the first `next`, after a second call, and when that string is the
        empty string. */
    method Remove() returns (o: Outcome)
      requires Valid()
      modifies this, trie
      ensures Valid()
      ensures old(currentKey == [] || removed) ==>
                && o == Fail(IllegalState) && removed == old(removed)
                && trie.nodes == old(trie.nodes) && trie.size == old(trie.size)
      ensures !old(currentKey == [] || removed) ==>
                && o == Pass && removed
                && trie.Contents() == old(trie.Contents()) - {currentKey}
                && trie.size == old(trie.size) - 1
                && currentKey in old(trie.nodes)
                && trie.nodes == RemoveWord(old(trie.nodes), currentKey)
      ensures queue == old(queue) && yielded == old(yielded) && currentKey == old(currentKey)
    {
      if currentKey == [] || removed {
        return Fail(IllegalState);
      }
      assert currentKey in initial by {
        assert currentKey == initial[|yielded| - 1];
      }
      var _ := trie.Remove(currentKey);
      removed := true;
      removedKeys := removedKeys + {currentKey};
      return Pass;
    }
  }
}
