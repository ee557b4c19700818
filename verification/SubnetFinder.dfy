/** internal/network/subnetfinder: the first free private subnet of a given prefix length. */
module SubnetFinder {
  import opened Bytes
  import opened PrefixTries

  // ---- Addresses and blocks of a w-bit address space ----

  /** An address outside every used block and inside some block of the space. */
  ghost predicate FreeAddress(space: set<Prefix>, used: set<Prefix>, a: Prefix) {
    (exists s :: s in space && s <= a) && forall u :: u in used ==> !(u <= a)
  }

  /** An aligned block all of whose addresses are free. */
  ghost predicate FreeBlock(w: nat, space: set<Prefix>, used: set<Prefix>, b: Prefix) {
    |b| <= w && forall a: Prefix :: |a| == w && b <= a ==> FreeAddress(space, used, a)
  }

  /** A free block that is not part of a larger one. */
  ghost predicate MaximalFree(w: nat, space: set<Prefix>, used: set<Prefix>, b: Prefix) {
    FreeBlock(w, space, used, b) && (b == [] || !FreeBlock(w, space, used, b[..|b| - 1]))
  }

  /** The trie holds exactly the maximal free blocks. */
  ghost predicate HoldsFreeSpace(w: nat, space: set<Prefix>, used: set<Prefix>, root: Node) {
    forall b :: Has(root, b) <==> MaximalFree(w, space, used, b)
  }

  function Repeat(bit: bool, n: nat): (r: Prefix)
    ensures |r| == n
  {
    seq(n, _ => bit)
  }

  lemma FreeBlockInside(w: nat, space: set<Prefix>, used: set<Prefix>, b: Prefix, c: Prefix)
    requires FreeBlock(w, space, used, b) && b <= c && |c| <= w
    ensures FreeBlock(w, space, used, c)
  {
    forall a: Prefix | |a| == w && c <= a
      ensures FreeAddress(space, used, a)
    {
      assert b <= a;
    }
  }

  lemma UsedAddressInside(w: nat, space: set<Prefix>, used: set<Prefix>, b: Prefix, u: Prefix, a: Prefix)
    requires u in used && |a| == w && b <= a && u <= a
    ensures !FreeBlock(w, space, used, b)
  {
    assert !FreeAddress(space, used, a);
  }

  lemma NoCommonAddress(u: Prefix, b: Prefix, a: Prefix)
    requires !Comparable(u, b) && b <= a
    ensures !(u <= a)
  {}

  lemma CommonAddress(u: Prefix, b: Prefix, a: Prefix)
    requires u <= a && b <= a
    ensures Comparable(u, b)
  {}

  /** A free block stays free when another block is used exactly if the two have no address in common. */
  lemma FreeAfterUse(w: nat, space: set<Prefix>, used: set<Prefix>, u: Prefix, b: Prefix)
    requires |u| <= w
    ensures FreeBlock(w, space, used + {u}, b) <==> FreeBlock(w, space, used, b) && !Comparable(u, b)
  {
    if |b| <= w && Comparable(u, b) {
      var longer := if u <= b then b else u;
      UsedAddressInside(w, space, used + {u}, b, u, longer + Repeat(false, w - |longer|));
    }
    if FreeBlock(w, space, used + {u}, b) {
      forall a: Prefix | |a| == w && b <= a
        ensures FreeAddress(space, used, a)
      {
        assert FreeAddress(space, used + {u}, a);
      }
    }
    if FreeBlock(w, space, used, b) && !Comparable(u, b) {
      forall a: Prefix | |a| == w && b <= a
        ensures FreeAddress(space, used + {u}, a)
      {
        assert FreeAddress(space, used, a);
        NoCommonAddress(u, b, a);
      }
    }
  }

  lemma {:induction false} MaximalAround(w: nat, space: set<Prefix>, used: set<Prefix>, b: Prefix) returns (m: Prefix)
    requires FreeBlock(w, space, used, b)
    ensures m <= b && MaximalFree(w, space, used, m)
    decreases |b|
  {
    if b == [] || !FreeBlock(w, space, used, b[..|b| - 1]) {
      m := b;
    } else {
      m := MaximalAround(w, space, used, b[..|b| - 1]);
    }
  }

  lemma MaximalBlocksAreDisjoint(w: nat, space: set<Prefix>, used: set<Prefix>, a: Prefix, b: Prefix)
    requires MaximalFree(w, space, used, a) && MaximalFree(w, space, used, b) && Comparable(a, b)
    ensures a == b
  {
    var shorter, longer := if a <= b then a else b, if a <= b then b else a;
    if shorter != longer {
      assert shorter <= longer[..|longer| - 1];
      FreeBlockInside(w, space, used, shorter, longer[..|longer| - 1]);
    }
  }

  // ---- Subtracting a used block ----

  function Sibling(u: Prefix, i: nat): (b: Prefix)
    requires i < |u|
    ensures |b| == i + 1
  {
    u[..i] + [!u[i]]
  }

  /** match.Subtract(u) merged to prefix blocks: the siblings met on the way from the match down to u. */
  function SubtractBlocks(outer: Prefix, u: Prefix): (blocks: seq<Prefix>)
    requires outer <= u
    ensures |blocks| == |u| - |outer|
  {
    seq(|u| - |outer|, k requires 0 <= k < |u| - |outer| => Sibling(u, |outer| + k))
  }

  lemma BesideThePath(u: Prefix, b: Prefix)
    requires b != [] && b[..|b| - 1] <= u && b[..|b| - 1] != u && !(b <= u)
    ensures b == Sibling(u, |b| - 1)
  {
    var i := |b| - 1;
    if b[i] == u[i] {
      OnThePath(u, b);
    }
  }

  lemma OnThePath(u: Prefix, b: Prefix)
    requires b != [] && |b| <= |u| && b[..|b| - 1] <= u && b[|b| - 1] == u[|b| - 1]
    ensures b <= u
  {}

  lemma SiblingsAreDisjoint(u: Prefix, i: nat, j: nat)
    requires i < j < |u|
    ensures !Comparable(Sibling(u, i), Sibling(u, j))
  {
    assert Sibling(u, i)[i] != u[i] && Sibling(u, j)[i] == u[i];
  }

  lemma InSubtractBlocks(outer: Prefix, u: Prefix, b: Prefix)
    requires outer <= u
    ensures b in SubtractBlocks(outer, u) <==> exists i :: |outer| <= i < |u| && b == Sibling(u, i)
  {
    if i :| |outer| <= i < |u| && b == Sibling(u, i) {
      assert SubtractBlocks(outer, u)[i - |outer|] == b;
    }
  }

  /** The block, if any, that one interface's subtraction finds and splits. */
  ghost predicate IsMatch(w: nat, space: set<Prefix>, used: set<Prefix>, u: Prefix, m: Option<Prefix>) {
    match m
    case Some(k) => MaximalFree(w, space, used, k) && k <= u && k != u
    case None => forall k :: MaximalFree(w, space, used, k) && k <= u ==> k == u
  }

  /** What one interface's subtraction leaves in the trie. */
  ghost predicate AfterSubtract(w: nat, space: set<Prefix>, used: set<Prefix>, u: Prefix, m: Option<Prefix>, b: Prefix)
    requires m.Some? ==> m.value <= u
  {
    || (MaximalFree(w, space, used, b) && !(u <= b) && m != Some(b))
    || (m.Some? && b in SubtractBlocks(m.value, u))
  }

  lemma SubtractedIsMaximal(w: nat, space: set<Prefix>, used: set<Prefix>, u: Prefix, m: Option<Prefix>, b: Prefix)
    requires |u| <= w && IsMatch(w, space, used, u, m) && AfterSubtract(w, space, used, u, m, b)
    ensures MaximalFree(w, space, used + {u}, b)
  {
    FreeAfterUse(w, space, used, u, b);
    if b != [] {
      FreeAfterUse(w, space, used, u, b[..|b| - 1]);
    }
    if m.Some? && b in SubtractBlocks(m.value, u) {
      InSubtractBlocks(m.value, u, b);
      var i :| |m.value| <= i < |u| && b == Sibling(u, i);
      assert b[..i] == u[..i] && m.value <= b && b[i] != u[i];
      FreeBlockInside(w, space, used, m.value, b);
    } else if m.Some? && b <= u {
      CommonAddress(m.value, b, u);
      MaximalBlocksAreDisjoint(w, space, used, m.value, b);
    }
  }

  lemma MaximalIsSubtracted(w: nat, space: set<Prefix>, used: set<Prefix>, u: Prefix, m: Option<Prefix>, b: Prefix)
    requires |u| <= w && IsMatch(w, space, used, u, m) && MaximalFree(w, space, used + {u}, b)
    ensures AfterSubtract(w, space, used, u, m, b)
  {
    FreeAfterUse(w, space, used, u, b);
    assert b != [];
    var parent := b[..|b| - 1];
    FreeAfterUse(w, space, used, u, parent);
    if FreeBlock(w, space, used, parent) {
      assert parent <= u && parent != u;
      var i := |parent|;
      BesideThePath(u, b);
      var k := MaximalAround(w, space, used, parent);
      assert k <= u && k != u;
      CommonAddress(m.value, k, u);
      MaximalBlocksAreDisjoint(w, space, used, m.value, k);
      InSubtractBlocks(m.value, u, b);
    }
  }

  /** Subtracting turns the maximal free blocks into the maximal free blocks with one more block used. */
  lemma SubtractKeepsExactness(w: nat, space: set<Prefix>, used: set<Prefix>, u: Prefix, m: Option<Prefix>)
    requires |u| <= w && IsMatch(w, space, used, u, m)
    ensures forall b :: AfterSubtract(w, space, used, u, m, b) <==> MaximalFree(w, space, used + {u}, b)
  {
    forall b
      ensures AfterSubtract(w, space, used, u, m, b) <==> MaximalFree(w, space, used + {u}, b)
    {
      if AfterSubtract(w, space, used, u, m, b) {
        SubtractedIsMaximal(w, space, used, u, m, b);
      }
      if MaximalFree(w, space, used + {u}, b) {
        MaximalIsSubtracted(w, space, used, u, m, b);
      }
    }
  }

  /**
   * The split of a match: as many blocks as the used block is longer, so at least one; pairwise
   * disjoint; and exactly the maximal aligned blocks of the match without the used block, so that
   * merging them to prefix blocks cannot give anything else.
   */
  lemma SubtractIsExact(w: nat, outer: Prefix, u: Prefix)
    requires outer <= u && outer != u && |u| <= w
    ensures |SubtractBlocks(outer, u)| == |u| - |outer| > 0
    ensures forall b :: b in SubtractBlocks(outer, u) <==> MaximalFree(w, {outer}, {u}, b)
    ensures forall i, j :: 0 <= i < j < |SubtractBlocks(outer, u)| ==>
              !Comparable(SubtractBlocks(outer, u)[i], SubtractBlocks(outer, u)[j])
  {
    WholeSpaceIsMaximal(w, outer);
    var none: set<Prefix> := {};
    SubtractKeepsExactness(w, {outer}, none, u, Some(outer));
    assert none + {u} == {u};
    var blocks := SubtractBlocks(outer, u);
    forall i, j | 0 <= i < j < |blocks|
      ensures !Comparable(blocks[i], blocks[j])
    {
      SiblingsAreDisjoint(u, |outer| + i, |outer| + j);
    }
  }

  lemma WholeSpaceIsMaximal(w: nat, s: Prefix)
    requires |s| <= w
    ensures forall b :: MaximalFree(w, {s}, {}, b) <==> b == s
  {
    assert FreeBlock(w, {s}, {}, s);
    if s != [] {
      var other := Sibling(s, |s| - 1) + Repeat(false, w - |s|);
      assert s[..|s| - 1] <= other && !(s <= other);
      assert !FreeAddress({s}, {}, other);
      assert !FreeBlock(w, {s}, {}, s[..|s| - 1]);
    }
    forall b | MaximalFree(w, {s}, {}, b)
      ensures b == s
    {
      var a := b + Repeat(false, w - |b|);
      assert FreeAddress({s}, {}, a);
      CommonAddress(s, b, a);
      MaximalBlocksAreDisjoint(w, {s}, {}, b, s);
    }
  }

  // ---- Numeric addresses ----

  function Pow2(n: nat): nat {
    if n == 0 then 1 else 2 * Pow2(n - 1)
  }

  function Value(bits: Prefix): nat {
    if bits == [] then 0 else 2 * Value(bits[..|bits| - 1]) + if bits[|bits| - 1] then 1 else 0
  }

  function ToBits(n: nat, length: nat): (bits: Prefix)
    ensures |bits| == length
  {
    if length == 0 then [] else ToBits(n / 2, length - 1) + [n % 2 == 1]
  }

  lemma {:induction false} ValueOfToBits(n: nat, length: nat)
    requires n < Pow2(length)
    ensures Value(ToBits(n, length)) == n
  {
    if length > 0 {
      ValueOfToBits(n / 2, length - 1);
      assert ToBits(n, length)[..length - 1] == ToBits(n / 2, length - 1);
    }
  }

  lemma {:induction false} ValueConcat(a: Prefix, b: Prefix)
    ensures Value(a + b) == Value(a) * Pow2(|b|) + Value(b)
    decreases |b|
  {
    hide Value;
    if b == [] {
      assert a + b == a;
      EmptyValue();
      assert b[..0] == b;
    } else {
      var front, last := b[..|b| - 1], b[|b| - 1];
      assert b == front + [last] && a + b == (a + front) + [last];
      ValueConcat(a, front);
      ValueSnoc(front, last);
      ValueSnoc(a + front, last);
      DoubleProduct(Value(a), Pow2(|front|));
    }
  }

  lemma DoubleProduct(v: nat, p: nat)
    ensures 2 * (v * p) == v * (2 * p)
  {}

  lemma {:induction false} ValueBound(a: Prefix)
    ensures Value(a) < Pow2(|a|)
    decreases |a|
  {
    if a != [] {
      ValueBound(a[..|a| - 1]);
    }
  }

  /** For bit strings of one length, the address order is the order of their numeric values. */
  lemma {:induction false} BeforeIsLess(a: Prefix, b: Prefix)
    requires |a| == |b| && Before(a, b)
    ensures Value(a) < Value(b)
    decreases |a|
  {
    var i: nat :| SplitAt(a, b, i);
    var n := |a| - 1;
    if i == n {
      assert a[..n] == b[..n];
    } else {
      assert SplitAt(a[..n], b[..n], i) by {
        assert a[..n][..i] == a[..i] && b[..n][..i] == b[..i];
      }
      BeforeIsLess(a[..n], b[..n]);
    }
  }

  /** A block's addresses, numerically: the aligned range of length 2^(w - |b|) it starts with. */
  lemma BlockIsRange(w: nat, b: Prefix, a: Prefix)
    requires |b| <= w == |a|
    ensures b <= a <==> Value(b) * Pow2(w - |b|) <= Value(a) < (Value(b) + 1) * Pow2(w - |b|)
  {
    var size := Pow2(w - |b|);
    var high, low := a[..|b|], a[|b|..];
    assert a == high + low;
    ValueConcat(high, low);
    ValueBound(low);
    if high != b {
      DifferentBlocks(high, b);
    }
    RangeOf(Value(high), Value(b), size, Value(low));
  }

  lemma RangeOf(x: nat, y: nat, size: nat, low: nat)
    requires low < size
    ensures x == y <==> y * size <= x * size + low < (y + 1) * size
  {
    assert (x + 1) * size == x * size + size && (y + 1) * size == y * size + size;
    if x < y {
      assert (x + 1) * size <= y * size;
    } else if y < x {
      assert (y + 1) * size <= x * size;
    }
  }

  lemma {:induction false} DifferentBlocks(a: Prefix, b: Prefix)
    requires |a| == |b| && a != b
    ensures Value(a) != Value(b)
    decreases |a|
  {
    var n := |a| - 1;
    assert a == a[..n] + [a[n]] && b == b[..n] + [b[n]];
    if a[..n] != b[..n] {
      DifferentBlocks(a[..n], b[..n]);
    }
  }

  // ---- FindAvailableSubnet ----

  const WIDTH := 32

  /** 10.0.0.0/8, 172.16.0.0/12 and 192.168.0.0/16: section 3 of RFC 1918. */
  const PRIVATE_ADDRESS_SPACE: seq<Prefix> := [
    [false, false, false, false, true, false, true, false],
    [true, false, true, false, true, true, false, false, false, false, false, true],
    [true, true, false, false, false, false, false, false, true, false, true, false, true, false, false, false]
  ]

  ghost const PRIVATE_BLOCKS: set<Prefix> := set s | s in PRIVATE_ADDRESS_SPACE

  /** What net.InterfaceAddrs lists: IPv4 addresses or blocks, and anything else as None. */
  type InterfaceAddrs = seq<Option<Prefix>>

  ghost function UsedBlocks(addrs: InterfaceAddrs): (used: set<Prefix>) {
    set i | 0 <= i < |addrs| && addrs[i].Some? :: addrs[i].value
  }

  ghost predicate ValidAddrs(addrs: InterfaceAddrs) {
    forall i :: 0 <= i < |addrs| && addrs[i].Some? ==> |addrs[i].value| <= WIDTH
  }

  ghost predicate Available(used: set<Prefix>, b: Prefix) {
    FreeBlock(WIDTH, PRIVATE_BLOCKS, used, b)
  }

  /** The lowest available block of the length. */
  ghost predicate IsFirstFit(used: set<Prefix>, prefixLen: nat, b: Prefix) {
    && |b| == prefixLen && Available(used, b)
    && forall c: Prefix :: |c| == prefixLen && Available(used, c) ==> c == b || Before(b, c)
  }

  /** No block's sibling shares an address with any block. */
  ghost predicate SeparatedBlocks(w: nat, blocks: seq<Prefix>) {
    forall i, j :: 0 <= i < |blocks| && 0 <= j < |blocks| ==>
      blocks[i] != [] && |blocks[i]| <= w && !Comparable(blocks[j], Sibling(blocks[i], |blocks[i]| - 1))
  }

  lemma SpaceIsExact(w: nat, blocks: seq<Prefix>, space: set<Prefix>)
    requires SeparatedBlocks(w, blocks) && space == set s | s in blocks
    ensures forall b :: MaximalFree(w, space, {}, b) <==> b in blocks
  {
    forall s | s in blocks
      ensures MaximalFree(w, space, {}, s)
    {
      assert s in space;
      var i :| 0 <= i < |blocks| && blocks[i] == s;
      forall a: Prefix | |a| == w && s <= a
        ensures FreeAddress(space, {}, a)
      {
      }
      var sibling := Sibling(s, |s| - 1);
      var other := sibling + Repeat(false, w - |s|);
      assert s[..|s| - 1] <= other && |other| == w;
      forall t | t in space
        ensures !(t <= other)
      {
        var j :| 0 <= j < |blocks| && blocks[j] == t;
        NoCommonAddress(t, sibling, other);
      }
      assert !FreeAddress(space, {}, other);
    }
    forall k | MaximalFree(w, space, {}, k)
      ensures k in blocks
    {
      var address := k + Repeat(false, w - |k|);
      assert FreeAddress(space, {}, address);
      var s :| s in space && s <= address;
      CommonAddress(s, k, address);
      MaximalBlocksAreDisjoint(w, space, {}, k, s);
    }
  }

  function Bit(b: bool): nat {
    if b then 1 else 0
  }

  lemma AppendNibble(high: Prefix, a: bool, b: bool, c: bool, d: bool)
    ensures Value(high + [a, b, c, d]) == 16 * Value(high) + 8 * Bit(a) + 4 * Bit(b) + 2 * Bit(c) + Bit(d)
  {
    hide Value;
    assert high + [a, b, c, d] == (((high + [a]) + [b]) + [c]) + [d];
    ValueSnoc(high, a);
    ValueSnoc(high + [a], b);
    ValueSnoc(high + [a] + [b], c);
    ValueSnoc(high + [a] + [b] + [c], d);
  }

  lemma ValueSnoc(high: Prefix, b: bool)
    ensures Value(high + [b]) == 2 * Value(high) + Bit(b)
  {
    assert (high + [b])[..|high|] == high;
  }

  /** The private blocks are 10/8, 172.16/12 and 192.168/16. */
  lemma PrivateSpaceValues()
    ensures |PRIVATE_ADDRESS_SPACE[0]| == 8 && Value(PRIVATE_ADDRESS_SPACE[0]) == 10
    ensures |PRIVATE_ADDRESS_SPACE[1]| == 12 && Value(PRIVATE_ADDRESS_SPACE[1]) == 172 * 16 + 1
    ensures |PRIVATE_ADDRESS_SPACE[2]| == 16 && Value(PRIVATE_ADDRESS_SPACE[2]) == 192 * 256 + 168
  {
    hide Value;
    EmptyValue();
    Nibbles(PRIVATE_ADDRESS_SPACE[0], 0);
    Nibbles(PRIVATE_ADDRESS_SPACE[0], 4);
    Nibbles(PRIVATE_ADDRESS_SPACE[1], 0);
    Nibbles(PRIVATE_ADDRESS_SPACE[1], 4);
    Nibbles(PRIVATE_ADDRESS_SPACE[1], 8);
    Nibbles(PRIVATE_ADDRESS_SPACE[2], 0);
    Nibbles(PRIVATE_ADDRESS_SPACE[2], 4);
    Nibbles(PRIVATE_ADDRESS_SPACE[2], 8);
    Nibbles(PRIVATE_ADDRESS_SPACE[2], 12);
    assert forall i :: 0 <= i < 3 ==> PRIVATE_ADDRESS_SPACE[i][..|PRIVATE_ADDRESS_SPACE[i]|] == PRIVATE_ADDRESS_SPACE[i];
  }

  lemma EmptyValue()
    ensures forall s: Prefix :: Value(s[..0]) == 0
  {}

  lemma Nibbles(s: Prefix, i: nat)
    requires i + 4 <= |s|
    ensures Value(s[..i + 4])
         == 16 * Value(s[..i]) + 8 * Bit(s[i]) + 4 * Bit(s[i + 1]) + 2 * Bit(s[i + 2]) + Bit(s[i + 3])
  {
    assert s[..i + 4] == s[..i] + [s[i], s[i + 1], s[i + 2], s[i + 3]];
    AppendNibble(s[..i], s[i], s[i + 1], s[i + 2], s[i + 3]);
  }

  lemma DifferAt(a: Prefix, b: Prefix, i: nat)
    requires i < |a| && i < |b| && a[i] != b[i]
    ensures !Comparable(a, b)
  {}

  lemma PrivateBlocksSeparated()
    ensures SeparatedBlocks(WIDTH, PRIVATE_ADDRESS_SPACE)
  {
    var blocks := PRIVATE_ADDRESS_SPACE;
    forall i, j | 0 <= i < |blocks| && 0 <= j < |blocks|
      ensures blocks[i] != [] && |blocks[i]| <= WIDTH
      ensures !Comparable(blocks[j], Sibling(blocks[i], |blocks[i]| - 1))
    {
      DifferAt(blocks[j], Sibling(blocks[i], |blocks[i]| - 1),
               if i == j then |blocks[i]| - 1 else if i == 0 || j == 0 then 0 else 1);
    }
  }

  lemma PrivateSpaceIsExact()
    ensures forall b :: MaximalFree(WIDTH, PRIVATE_BLOCKS, {}, b) <==> b in PRIVATE_ADDRESS_SPACE
  {
    PrivateBlocksSeparated();
    SpaceIsExact(WIDTH, PRIVATE_ADDRESS_SPACE, PRIVATE_BLOCKS);
  }

  // ---- The search ----

  /** A free block of the wanted length lies in one of the trie's blocks, which is no longer than it. */
  lemma InsideMaximal(used: set<Prefix>, c: Prefix) returns (k: Prefix)
    requires Available(used, c)
    ensures MaximalFree(WIDTH, PRIVATE_BLOCKS, used, k) && k <= c && |k| <= |c|
  {
    k := MaximalAround(WIDTH, PRIVATE_BLOCKS, used, c);
  }

  lemma BeforeInside(a: Prefix, b: Prefix, a': Prefix, b': Prefix)
    requires Before(a, b) && a <= a' && b <= b'
    ensures Before(a', b')
  {
    var i: nat :| SplitAt(a, b, i);
    assert a'[..i] == a[..i] && b'[..i] == b[..i];
    assert SplitAt(a', b', i);
  }

  /** The block's lowest sub-block comes before all its other sub-blocks of that length. */
  lemma LowestInside(k: Prefix, c: Prefix)
    requires k <= c
    ensures c == k + Repeat(false, |c| - |k|) || Before(k + Repeat(false, |c| - |k|), c)
  {
    var d := k + Repeat(false, |c| - |k|);
    if c != d {
      var i := FirstOne(c, |k|);
      assert d[..i] == c[..i];
      assert SplitAt(d, c, i);
    }
  }

  lemma FirstOne(c: Prefix, from: nat) returns (i: nat)
    requires from <= |c| && c != c[..from] + Repeat(false, |c| - from)
    ensures from <= i < |c| && c[i] && forall k :: from <= k < i ==> !c[k]
    decreases |c| - from
  {
    if c[from] {
      i := from;
    } else {
      assert c[..from] + Repeat(false, |c| - from) == c[..from + 1] + Repeat(false, |c| - from - 1);
      i := FirstOne(c, from + 1);
    }
  }

  /** The first block of the iteration that is large enough gives the lowest free block of the length. */
  lemma FirstLargeEnough(used: set<Prefix>, blocks: seq<Prefix>, n: nat, prefixLen: nat)
    requires forall k :: k in blocks <==> MaximalFree(WIDTH, PRIVATE_BLOCKS, used, k)
    requires forall i, j :: 0 <= i < j < |blocks| ==> Before(blocks[i], blocks[j]) || Comparable(blocks[i], blocks[j])
    requires n < |blocks| && |blocks[n]| <= prefixLen <= WIDTH
    requires forall i :: 0 <= i < n ==> prefixLen < |blocks[i]|
    ensures IsFirstFit(used, prefixLen, blocks[n] + Repeat(false, prefixLen - |blocks[n]|))
  {
    var k := blocks[n];
    var d := k + Repeat(false, prefixLen - |k|);
    assert k in blocks;
    FreeBlockInside(WIDTH, PRIVATE_BLOCKS, used, k, d);
    forall c: Prefix | |c| == prefixLen && Available(used, c)
      ensures c == d || Before(d, c)
    {
      var m := InsideMaximal(used, c);
      var j :| 0 <= j < |blocks| && blocks[j] == m;
      if j == n {
        LowestInside(k, c);
      } else {
        if Comparable(k, m) {
          MaximalBlocksAreDisjoint(WIDTH, PRIVATE_BLOCKS, used, k, m);
          LowestInside(k, c);
        } else {
          BeforeInside(k, m, d, c);
        }
      }
    }
  }

  lemma AvailableIsPrivateAndUnused(used: set<Prefix>, b: Prefix)
    requires Available(used, b) && forall u :: u in used ==> |u| <= WIDTH
    ensures exists s :: s in PRIVATE_ADDRESS_SPACE && s <= b
    ensures forall u :: u in used ==> !(b <= u) && !(u <= b)
  {
    forall a: Prefix | |a| == WIDTH && b <= a
      ensures FreeAddress(PRIVATE_BLOCKS, {}, a)
    {
      assert FreeAddress(PRIVATE_BLOCKS, used, a);
    }
    var m := MaximalAround(WIDTH, PRIVATE_BLOCKS, {}, b);
    PrivateSpaceIsExact();
    forall u | u in used
      ensures !Comparable(u, b)
    {
      assert used + {u} == used;
      FreeAfterUse(WIDTH, PRIVATE_BLOCKS, used, u, b);
    }
  }

  lemma AvailableFits(used: set<Prefix>, blocks: seq<Prefix>, b: Prefix) returns (i: nat)
    requires forall k :: k in blocks <==> MaximalFree(WIDTH, PRIVATE_BLOCKS, used, k)
    requires Available(used, b)
    ensures i < |blocks| && |blocks[i]| <= |b|
  {
    var k := InsideMaximal(used, b);
    i :| 0 <= i < |blocks| && blocks[i] == k;
  }

  /** When every block of the iteration is too small, no block of the length is free. */
  lemma NothingFits(used: set<Prefix>, blocks: seq<Prefix>, prefixLen: nat)
    requires forall k :: k in blocks <==> MaximalFree(WIDTH, PRIVATE_BLOCKS, used, k)
    requires forall i :: 0 <= i < |blocks| ==> prefixLen < |blocks[i]|
    ensures forall b: Prefix :: |b| == prefixLen ==> !Available(used, b)
  {
    forall b: Prefix | |b| == prefixLen
      ensures !Available(used, b)
    {
      if Available(used, b) {
        var i := AvailableFits(used, blocks, b);
      }
    }
  }

  /** Addresses of a subnet in the order the library's iterator visits them; None once it has run out. */
  function HostAt(subnet: Prefix, n: nat): Option<Prefix>
    requires |subnet| <= WIDTH
  {
    if n < Pow2(WIDTH - |subnet|) then Some(subnet + ToBits(n, WIDTH - |subnet|)) else None
  }

  /** The n-th address lies in the subnet and is numerically n above the network address. */
  lemma HostIsOffset(subnet: Prefix, n: nat)
    requires |subnet| <= WIDTH && HostAt(subnet, n).Some?
    ensures var host := HostAt(subnet, n).value;
            |host| == WIDTH && subnet <= host
            && Value(host) == Value(subnet + Repeat(false, WIDTH - |subnet|)) + n
  {
    var length := WIDTH - |subnet|;
    ValueConcat(subnet, ToBits(n, length));
    ValueOfToBits(n, length);
    ValueConcat(subnet, Repeat(false, length));
    ValueOfZeros(length);
  }

  lemma {:induction false} ValueOfZeros(n: nat)
    ensures Value(Repeat(false, n)) == 0
  {
    if n > 0 {
      ValueOfZeros(n - 1);
      assert Repeat(false, n)[..n - 1] == Repeat(false, n - 1);
    }
  }

  /** The subnets this program asks for have room for a gateway, a VM and a host address. */
  lemma RoomForHosts(subnet: Prefix)
    requires |subnet| <= 30
    ensures HostAt(subnet, 1).Some? && HostAt(subnet, 2).Some? && HostAt(subnet, 3).Some?
  {
    Pow2AtLeast4(WIDTH - |subnet|);
  }

  lemma {:induction false} Pow2AtLeast4(n: nat)
    requires n >= 2
    ensures Pow2(n) >= 4
  {
    if n > 2 {
      Pow2AtLeast4(n - 1);
    } else {
      assert Pow2(2) == 2 * Pow2(1) && Pow2(1) == 2 * Pow2(0);
    }
  }

  datatype Found =
    | Subnet(first: Option<Prefix>, second: Option<Prefix>, third: Option<Prefix>, network: Prefix)
    | NoSubnet

  method FindAvailableSubnet(prefixLen: nat, interfaceAddrs: InterfaceAddrs) returns (r: Found)
    requires prefixLen <= WIDTH && ValidAddrs(interfaceAddrs)
    ensures r.Subnet? ==>
              && IsFirstFit(UsedBlocks(interfaceAddrs), prefixLen, r.network)
              && r.first == HostAt(r.network, 1)
              && r.second == HostAt(r.network, 2)
              && r.third == HostAt(r.network, 3)
    ensures r.NoSubnet? <==> forall b: Prefix :: |b| == prefixLen ==> !Available(UsedBlocks(interfaceAddrs), b)
    ensures r.Subnet? ==>
              && |r.network| == prefixLen
              && (exists s :: s in PRIVATE_ADDRESS_SPACE && s <= r.network)
              && forall i :: 0 <= i < |interfaceAddrs| && interfaceAddrs[i].Some? ==>
                   !(r.network <= interfaceAddrs[i].value) && !(interfaceAddrs[i].value <= r.network)
  {
    var availableAddressSpace := FreeSpace(interfaceAddrs);
    ghost var used := UsedBlocks(interfaceAddrs);
    var blocks := availableAddressSpace.Iterator();
    var n := 0;
    while n < |blocks|
      invariant n <= |blocks|
      invariant forall i :: 0 <= i < n ==> prefixLen < |blocks[i]|
    {
      var availableSubnet := blocks[n];
      // A /29 cannot be carved out of a /30.
      if prefixLen < |availableSubnet| {
        n := n + 1;
        continue;
      }
      var desiredSubnet := availableSubnet + Repeat(false, prefixLen - |availableSubnet|);
      FirstLargeEnough(used, blocks, n, prefixLen);
      AvailableIsPrivateAndUnused(used, desiredSubnet);
      forall i | 0 <= i < |interfaceAddrs| && interfaceAddrs[i].Some?
        ensures interfaceAddrs[i].value in used
      {
      }
      return Subnet(HostAt(desiredSubnet, 1), HostAt(desiredSubnet, 2), HostAt(desiredSubnet, 3), desiredSubnet);
    }
    NothingFits(used, blocks, prefixLen);
    return NoSubnet;
  }

  /** The trie of private address space that no interface uses. */
  method FreeSpace(interfaceAddrs: InterfaceAddrs) returns (trie: PrefixTrie)
    requires ValidAddrs(interfaceAddrs)
    ensures HoldsFreeSpace(WIDTH, PRIVATE_BLOCKS, UsedBlocks(interfaceAddrs), trie.root)
  {
    hide MaximalFree;
    hide Has;
    trie := new PrefixTrie();
    for i := 0 to |PRIVATE_ADDRESS_SPACE|
      invariant fresh(trie)
      invariant forall k :: Has(trie.root, k) <==> k in PRIVATE_ADDRESS_SPACE[..i]
    {
      trie.Add(PRIVATE_ADDRESS_SPACE[i]);
    }
    PrivateSpaceIsExact();
    assert UsedBlocks(interfaceAddrs[..0]) == {};
    for i := 0 to |interfaceAddrs|
      invariant fresh(trie)
      invariant HoldsFreeSpace(WIDTH, PRIVATE_BLOCKS, UsedBlocks(interfaceAddrs[..i]), trie.root)
    {
      UsedSnoc(interfaceAddrs, i);
      if interfaceAddrs[i].None? {
        continue;
      }
      SubtractInterface(trie, WIDTH, PRIVATE_BLOCKS, UsedBlocks(interfaceAddrs[..i]), interfaceAddrs[i].value);
    }
    assert interfaceAddrs[..|interfaceAddrs|] == interfaceAddrs;
  }

  lemma UsedSnoc(addrs: InterfaceAddrs, i: nat)
    requires i < |addrs|
    ensures UsedBlocks(addrs[..i + 1])
         == if addrs[i].Some? then UsedBlocks(addrs[..i]) + {addrs[i].value} else UsedBlocks(addrs[..i])
  {
    forall u
      ensures u in UsedBlocks(addrs[..i + 1]) <==> u in UsedBlocks(addrs[..i]) || addrs[i] == Some(u)
    {
      if u in UsedBlocks(addrs[..i]) {
        var j :| 0 <= j < i && addrs[..i][j] == Some(u);
        assert addrs[..i + 1][j] == Some(u);
      }
      if addrs[i] == Some(u) {
        assert addrs[..i + 1][i] == Some(u);
      }
    }
  }

  /** The body of the loop over interfaces: the trie keeps holding exactly the maximal free blocks. */
  method SubtractInterface(trie: PrefixTrie, w: nat, ghost space: set<Prefix>, ghost used: set<Prefix>, u: Prefix)
    requires |u| <= w && HoldsFreeSpace(w, space, used, trie.root)
    modifies trie
    ensures HoldsFreeSpace(w, space, used + {u}, trie.root)
  {
    hide MaximalFree;
    hide Has;
    hide SubtractBlocks;
    trie.RemoveElementsContainedBy(u);
    var found := trie.LongestPrefixMatch(u);
    MatchAfterRemoval(w, space, used, u, trie.root, found);
    SubtractKeepsExactness(w, space, used, u, found);
    if found.Some? {
      var splits := SubtractBlocks(found.value, u);
      trie.Remove(found.value);
      for i := 0 to |splits|
        invariant forall b :: Has(trie.root, b) <==>
          (MaximalFree(w, space, used, b) && !(u <= b) && found != Some(b)) || b in splits[..i]
      {
        trie.Add(splits[i]);
      }
      assert splits[..|splits|] == splits;
    }
  }

  lemma MatchAfterRemoval(w: nat, space: set<Prefix>, used: set<Prefix>, u: Prefix, root: Node, found: Option<Prefix>)
    requires forall b :: Has(root, b) <==> !(u <= b) && MaximalFree(w, space, used, b)
    requires found.Some? ==> Has(root, found.value) && found.value <= u
    requires forall k :: Has(root, k) && k <= u ==> found.Some? && |k| <= |found.value|
    ensures IsMatch(w, space, used, u, found)
  {
    if found.None? {
      forall k | MaximalFree(w, space, used, k) && k <= u
        ensures k == u
      {
        assert !Has(root, k);
      }
    }
  }

  /** The result depends on the set of used blocks only, not on the order or repetition of interfaces. */
  lemma FirstFitIsUnique(used: set<Prefix>, prefixLen: nat, a: Prefix, b: Prefix)
    requires IsFirstFit(used, prefixLen, a) && IsFirstFit(used, prefixLen, b)
    ensures a == b
  {
    if a != b {
      BeforeIsLess(a, b);
      BeforeIsLess(b, a);
    }
  }

  /** The subnet found is private, avoids every used block, and numerically no available one is lower. */
  lemma FirstFitMeaning(used: set<Prefix>, prefixLen: nat, b: Prefix)
    requires prefixLen <= WIDTH && IsFirstFit(used, prefixLen, b)
    ensures forall a: Prefix :: |a| == WIDTH && b <= a ==>
              (exists s :: s in PRIVATE_ADDRESS_SPACE && s <= a) && forall u :: u in used ==> !(u <= a)
    ensures forall c: Prefix :: |c| == prefixLen && Available(used, c) ==> Value(b) <= Value(c)
  {
    forall a: Prefix | |a| == WIDTH && b <= a
      ensures (exists s :: s in PRIVATE_ADDRESS_SPACE && s <= a) && forall u :: u in used ==> !(u <= a)
    {
      assert FreeAddress(PRIVATE_BLOCKS, used, a);
      var s :| s in PRIVATE_BLOCKS && s <= a;
      assert s in PRIVATE_ADDRESS_SPACE;
    }
    forall c: Prefix | |c| == prefixLen && Available(used, c)
      ensures Value(b) <= Value(c)
    {
      if c != b {
        BeforeIsLess(b, c);
      }
    }
  }

  lemma {:induction false} FirstDifference(a: Prefix, b: Prefix)
    requires |a| == |b| && a != b
    ensures Before(a, b) || Before(b, a)
    decreases |a|
  {
    var n := |a| - 1;
    assert a == a[..n] + [a[n]] && b == b[..n] + [b[n]];
    if a[..n] == b[..n] {
      assert SplitAt(a, b, n) || SplitAt(b, a, n);
    } else {
      FirstDifference(a[..n], b[..n]);
      if Before(a[..n], b[..n]) {
        BeforeInside(a[..n], b[..n], a, b);
      } else {
        BeforeInside(b[..n], a[..n], b, a);
      }
    }
  }

  /** If any block of the length is available, there is a lowest one. */
  lemma {:induction false} FirstFitExists(used: set<Prefix>, c: Prefix) returns (b: Prefix)
    requires Available(used, c)
    ensures IsFirstFit(used, |c|, b)
    decreases Value(c)
  {
    if d: Prefix :| |d| == |c| && Available(used, d) && Value(d) < Value(c) {
      b := FirstFitExists(used, d);
    } else {
      b := c;
      forall d: Prefix | |d| == |c| && Available(used, d) && d != c
        ensures Before(c, d)
      {
        FirstDifference(c, d);
        if Before(d, c) {
          BeforeIsLess(d, c);
        }
      }
    }
  }

  /** Different numbers give different addresses. */
  lemma HostsDiffer(subnet: Prefix, m: nat, n: nat)
    requires |subnet| <= WIDTH && m != n && HostAt(subnet, m).Some? && HostAt(subnet, n).Some?
    ensures HostAt(subnet, m) != HostAt(subnet, n)
  {
    HostIsOffset(subnet, m);
    HostIsOffset(subnet, n);
  }

  /** While nothing is used, every block of private space is available. */
  lemma PrivateIsAvailable(i: nat, b: Prefix)
    requires i < |PRIVATE_ADDRESS_SPACE| && PRIVATE_ADDRESS_SPACE[i] <= b && |b| <= WIDTH
    ensures Available({}, b)
  {
    forall a: Prefix | |a| == WIDTH && b <= a
      ensures FreeAddress(PRIVATE_BLOCKS, {}, a)
    {
      var s := PRIVATE_ADDRESS_SPACE[i];
      assert s in PRIVATE_BLOCKS && s <= a;
    }
  }
}
