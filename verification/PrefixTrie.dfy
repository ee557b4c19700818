/**
 * A binary trie of address blocks. A block is the bit string its addresses start with, so one block
 * contains another exactly when its bit string is a prefix of the other's.
 */
module PrefixTries {
  import opened Bytes

  type Prefix = seq<bool>

  datatype Node = Empty | Node(added: bool, zero: Node, one: Node)

  const LEAF := Node(false, Empty, Empty)

  predicate Has(n: Node, key: Prefix)
    decreases |key|
  {
    n.Node? && if key == [] then n.added else Has(if key[0] then n.one else n.zero, key[1..])
  }

  function Insert(n: Node, key: Prefix): Node
    decreases |key|
  {
    var n := if n.Empty? then LEAF else n;
    if key == [] then n.(added := true)
    else if key[0] then n.(one := Insert(n.one, key[1..]))
    else n.(zero := Insert(n.zero, key[1..]))
  }

  function Delete(n: Node, key: Prefix): Node
    decreases |key|
  {
    if n.Empty? then n
    else if key == [] then n.(added := false)
    else if key[0] then n.(one := Delete(n.one, key[1..]))
    else n.(zero := Delete(n.zero, key[1..]))
  }

  /** Drops every block that lies inside the given one. */
  function Prune(n: Node, key: Prefix): Node
    decreases |key|
  {
    if n.Empty? || key == [] then Empty
    else if key[0] then n.(one := Prune(n.one, key[1..]))
    else n.(zero := Prune(n.zero, key[1..]))
  }

  /** The longest block of the trie that contains the given one. */
  function Longest(n: Node, key: Prefix): Option<Prefix>
    decreases |key|
  {
    if n.Empty? then None
    else
      var deeper := if key == [] then None else Longest(if key[0] then n.one else n.zero, key[1..]);
      if deeper.Some? then Some([key[0]] + deeper.value)
      else if n.added then Some([]) else None
  }

  function Under(bit: bool, blocks: seq<Prefix>): (r: seq<Prefix>)
    ensures |r| == |blocks|
  {
    seq(|blocks|, i requires 0 <= i < |blocks| => [bit] + blocks[i])
  }

  /** The blocks in address order. */
  function Elements(n: Node): seq<Prefix> {
    if n.Empty? then []
    else Under(false, Elements(n.zero)) + (if n.added then [[]] else []) + Under(true, Elements(n.one))
  }

  // ---- What the operations do to the set of blocks ----

  lemma {:induction false} HasInsert(n: Node, key: Prefix, k: Prefix)
    ensures Has(Insert(n, key), k) <==> k == key || Has(n, k)
    decreases |key|
  {
    if key != [] && k != [] {
      HasInsert(if n.Empty? then Empty else if key[0] then n.one else n.zero, key[1..], k[1..]);
      assert k == [k[0]] + k[1..] && key == [key[0]] + key[1..];
    }
  }

  lemma {:induction false} HasDelete(n: Node, key: Prefix, k: Prefix)
    ensures Has(Delete(n, key), k) <==> k != key && Has(n, k)
    decreases |key|
  {
    if n.Node? && key != [] && k != [] {
      HasDelete(if key[0] then n.one else n.zero, key[1..], k[1..]);
      assert k == [k[0]] + k[1..] && key == [key[0]] + key[1..];
    }
  }

  lemma {:induction false} HasPrune(n: Node, key: Prefix, k: Prefix)
    ensures Has(Prune(n, key), k) <==> !(key <= k) && Has(n, k)
    decreases |key|
  {
    if n.Node? && key != [] && k != [] {
      HasPrune(if key[0] then n.one else n.zero, key[1..], k[1..]);
      assert k == [k[0]] + k[1..] && key == [key[0]] + key[1..];
    }
  }

  lemma {:induction false} LongestIsMatch(n: Node, key: Prefix)
    ensures Longest(n, key).Some? ==> Has(n, Longest(n, key).value) && Longest(n, key).value <= key
    ensures forall k :: Has(n, k) && k <= key ==> Longest(n, key).Some? && |k| <= |Longest(n, key).value|
    decreases |key|
  {
    if n.Node? {
      if key != [] {
        var child := if key[0] then n.one else n.zero;
        LongestIsMatch(child, key[1..]);
        assert key == [key[0]] + key[1..];
        forall k | Has(n, k) && k <= key
          ensures Longest(n, key).Some? && |k| <= |Longest(n, key).value|
        {
          if k != [] {
            assert Has(child, k[1..]) && k[1..] <= key[1..];
          }
        }
        if Longest(child, key[1..]).Some? {
          var m := Longest(child, key[1..]).value;
          assert ([key[0]] + m)[1..] == m;
        }
      }
    }
  }

  lemma {:induction false} HasElements(n: Node, k: Prefix)
    ensures k in Elements(n) <==> Has(n, k)
    decreases n
  {
    if n.Node? {
      var zeros, ones := Elements(n.zero), Elements(n.one);
      assert k in Elements(n) <==> k in Under(false, zeros) || (n.added && k == []) || k in Under(true, ones);
      if k != [] {
        assert k == [k[0]] + k[1..];
        UnderHas(k[0], if k[0] then ones else zeros, k);
        UnderHas(!k[0], if k[0] then zeros else ones, k);
        HasElements(if k[0] then n.one else n.zero, k[1..]);
      }
    }
  }

  lemma UnderHas(bit: bool, blocks: seq<Prefix>, k: Prefix)
    ensures k in Under(bit, blocks) <==> k != [] && k[0] == bit && k[1..] in blocks
  {
    if k in Under(bit, blocks) {
      var i :| 0 <= i < |blocks| && [bit] + blocks[i] == k;
      assert k[1..] == blocks[i];
    }
    if k != [] && k[0] == bit && k[1..] in blocks {
      var i :| 0 <= i < |blocks| && blocks[i] == k[1..];
      assert Under(bit, blocks)[i] == [bit] + k[1..] == k;
    }
  }

  // ---- Address order ----

  ghost predicate SplitAt(a: Prefix, b: Prefix, i: nat) {
    i < |a| && i < |b| && a[..i] == b[..i] && !a[i] && b[i]
  }

  /** Every address in a is lower than every address in b. */
  ghost predicate Before(a: Prefix, b: Prefix) {
    exists i: nat :: SplitAt(a, b, i)
  }

  predicate Comparable(a: Prefix, b: Prefix) {
    a <= b || b <= a
  }

  lemma BeforeUnder(bit: bool, a: Prefix, b: Prefix)
    requires Before(a, b) || Comparable(a, b)
    ensures Before([bit] + a, [bit] + b) || Comparable([bit] + a, [bit] + b)
  {
    if Before(a, b) {
      var i: nat :| SplitAt(a, b, i);
      assert SplitAt([bit] + a, [bit] + b, i + 1);
    } else if a <= b {
      assert [bit] + a <= [bit] + b;
    } else {
      assert [bit] + b <= [bit] + a;
    }
  }

  lemma {:induction false} ElementsInOrder(n: Node, i: nat, j: nat)
    requires i < j < |Elements(n)|
    ensures Before(Elements(n)[i], Elements(n)[j]) || Comparable(Elements(n)[i], Elements(n)[j])
    decreases n
  {
    var zeros, ones := Elements(n.zero), Elements(n.one);
    var a, b := Elements(n)[i], Elements(n)[j];
    var first := |Elements(n)| - |ones|;
    if j < |zeros| {
      ElementsInOrder(n.zero, i, j);
      BeforeUnder(false, zeros[i], zeros[j]);
    } else if first <= i {
      ElementsInOrder(n.one, i - first, j - first);
      BeforeUnder(true, ones[i - first], ones[j - first]);
    } else if i < |zeros| && first <= j {
      assert SplitAt(a, b, 0);
    } else {
      assert a == [] || b == [];
    }
  }

  // ---- The trie object ----

  class PrefixTrie {
    var root: Node

    constructor ()
      ensures forall k :: !Has(root, k)
    {
      root := Empty;
    }

    method Add(key: Prefix)
      modifies this
      ensures forall k :: Has(root, k) <==> k == key || old(Has(root, k))
    {
      forall k {
        HasInsert(root, key, k);
      }
      root := Insert(root, key);
    }

    method Remove(key: Prefix)
      modifies this
      ensures forall k :: Has(root, k) <==> k != key && old(Has(root, k))
    {
      forall k {
        HasDelete(root, key, k);
      }
      root := Delete(root, key);
    }

    method RemoveElementsContainedBy(key: Prefix)
      modifies this
      ensures forall k :: Has(root, k) <==> !(key <= k) && old(Has(root, k))
    {
      forall k {
        HasPrune(root, key, k);
      }
      root := Prune(root, key);
    }

    method LongestPrefixMatch(key: Prefix) returns (r: Option<Prefix>)
      ensures r.Some? ==> Has(root, r.value) && r.value <= key
      ensures forall k :: Has(root, k) && k <= key ==> r.Some? && |k| <= |r.value|
    {
      LongestIsMatch(root, key);
      r := Longest(root, key);
    }

    method Iterator() returns (blocks: seq<Prefix>)
      ensures forall k :: k in blocks <==> Has(root, k)
      ensures forall i, j :: 0 <= i < j < |blocks| ==> Before(blocks[i], blocks[j]) || Comparable(blocks[i], blocks[j])
    {
      blocks := Elements(root);
      forall k {
        HasElements(root, k);
      }
      forall i, j | 0 <= i < j < |blocks| {
        ElementsInOrder(root, i, j);
      }
    }
  }
}
