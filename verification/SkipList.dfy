/** SkipList: one inserter and any number of readers over nodes that are never removed.
    The list is well formed after every single pointer write. */
module SkipList {
  import opened DbFormat

  const kMaxHeight: nat := 12

  /** A node in the arena.  Addresses are positions in the arena; address 0 is the head
      node and, as a link, stands for nullptr. */
  datatype Node = Node(key: InternalKey, next: seq<nat>)

  datatype Memory = Memory(nodes: seq<Node>, maxHeight: nat)

  /** The addresses on each level, in list order: level 0 is the contents. */
  type Levels = seq<seq<nat>>

  // ---------------------------------------------------------------- well-formed levels

  /** The `i`-th stop on a level, counting the head as the first. */
  function Stop(list: seq<nat>, i: nat): nat
    requires i <= |list|
  {
    if i == 0 then 0 else list[i - 1]
  }

  function After(list: seq<nat>, i: nat): nat
    requires i <= |list|
  {
    if i < |list| then list[i] else 0
  }

  ghost predicate OnLevel(nodes: seq<Node>, list: seq<nat>, l: nat) {
    forall i :: 0 <= i < |list| ==> 0 < list[i] < |nodes| && l < |nodes[list[i]].next|
  }

  ghost predicate Increasing(nodes: seq<Node>, list: seq<nat>, l: nat)
    requires OnLevel(nodes, list, l)
  {
    forall i, j :: 0 <= i < j < |list| ==> Before(nodes[list[i]].key, nodes[list[j]].key)
  }

  ghost predicate Linked(nodes: seq<Node>, list: seq<nat>, l: nat)
    requires OnLevel(nodes, list, l) && HeadOk(nodes) && l < kMaxHeight
  {
    forall i: nat :: i <= |list| ==> nodes[Stop(list, i)].next[l] == After(list, i)
  }

  ghost predicate HeadOk(nodes: seq<Node>) {
    nodes != [] && |nodes[0].next| == kMaxHeight
  }

  /** Level `l` is a linked list in strictly increasing key order. */
  ghost predicate LevelOk(nodes: seq<Node>, list: seq<nat>, l: nat) {
    && l < kMaxHeight && HeadOk(nodes)
    && OnLevel(nodes, list, l) && Increasing(nodes, list, l) && Linked(nodes, list, l)
  }

  /** Each level is well formed and contained in the level below; nothing is on a level
      at or above the height of the list. */
  ghost predicate ListInv(m: Memory, levels: Levels) {
    && |levels| == kMaxHeight && 1 <= m.maxHeight <= kMaxHeight
    && (forall l :: 0 <= l < kMaxHeight ==> LevelOk(m.nodes, levels[l], l))
    && (forall j, l, x :: 0 <= j < l < kMaxHeight && x in levels[l] ==> x in levels[j])
    && (forall l :: m.maxHeight <= l < kMaxHeight ==> levels[l] == [])
  }

  ghost function Keys(m: Memory, list: seq<nat>): set<InternalKey>
    requires forall x :: x in list ==> x < |m.nodes|
  {
    set x | x in list :: m.nodes[x].key
  }

  /** Where a search may stand: the head, or a node of the level before the target. */
  ghost predicate StandsBefore(m: Memory, list: seq<nat>, x: nat, target: Bound) {
    x == 0 || (x in list && x < |m.nodes| && Below(m.nodes[x].key, target))
  }

  /** A search target: a key, or past all keys. */
  datatype Bound = Key(key: InternalKey) | Infinity

  predicate Below(k: InternalKey, b: Bound) {
    b.Infinity? || Before(k, b.key)
  }

  lemma IndexOf(list: seq<nat>, x: nat) returns (i: nat)
    requires x == 0 || x in list
    ensures i <= |list| && Stop(list, i) == x
  {
    if x == 0 {
      i := 0;
    } else {
      var j: nat :| j < |list| && list[j] == x;
      i := j + 1;
    }
  }

  /** `next` follows `x` on a level: nothing lies between them. */
  ghost predicate Follows(m: Memory, list: seq<nat>, x: nat, next: nat) {
    && (next != 0 ==> next in list)
    && (forall y :: y in list ==> 0 < y < |m.nodes|)
    && (forall y :: y in list && y != x && y != next ==>
          || (x != 0 && x < |m.nodes| && Before(m.nodes[y].key, m.nodes[x].key))
          || (next != 0 && next < |m.nodes| && Before(m.nodes[next].key, m.nodes[y].key)))
    && (x != 0 && next != 0 ==> x < |m.nodes| && next < |m.nodes| && Before(m.nodes[x].key, m.nodes[next].key))
  }

  /** What one pointer read tells a search. */
  lemma ReadNext(m: Memory, list: seq<nat>, l: nat, x: nat)
    requires LevelOk(m.nodes, list, l) && (x == 0 || x in list)
    ensures x < |m.nodes| && l < |m.nodes[x].next|
    ensures Follows(m, list, x, m.nodes[x].next[l])
  {
    var i := IndexOf(list, x);
    var next := m.nodes[x].next[l];
    assert next == After(list, i);
    forall y | y in list && y != x && y != next
      ensures || (x != 0 && Before(m.nodes[y].key, m.nodes[x].key))
              || (next != 0 && Before(m.nodes[next].key, m.nodes[y].key))
    {
      var j: nat :| j < |list| && list[j] == y;
      LevelOrder(m.nodes, list, l, j, i);
    }
    if i > 0 && i < |list| {
      LevelOrder(m.nodes, list, l, i - 1, i);
    }
  }

  /** Entries of a level on the two sides of a stop. */
  lemma LevelOrder(nodes: seq<Node>, list: seq<nat>, l: nat, j: nat, i: nat)
    requires LevelOk(nodes, list, l) && j < |list| && i <= |list|
    ensures i < j ==> Before(nodes[list[i]].key, nodes[list[j]].key)
    ensures j + 1 < i ==> Before(nodes[list[j]].key, nodes[list[i - 1]].key)
    ensures j + 1 == i < |list| ==> Before(nodes[list[j]].key, nodes[list[i]].key)
  {
  }

  /** The node a search for `key` must return. */
  ghost predicate IsFirstFrom(m: Memory, list: seq<nat>, key: InternalKey, r: nat) {
    && (forall y :: y in list ==> y < |m.nodes|)
    && (r != 0 ==> r in list && !Before(m.nodes[r].key, key))
    && forall y :: y in list && !Before(m.nodes[y].key, key) ==>
         r != 0 && (y == r || Before(m.nodes[r].key, m.nodes[y].key))
  }

  /** The last node before a bound, or the head. */
  ghost predicate IsLastBefore(m: Memory, list: seq<nat>, b: Bound, r: nat) {
    && StandsBefore(m, list, r, b)
    && (forall y :: y in list ==> y < |m.nodes|)
    && forall y :: y in list && Below(m.nodes[y].key, b) ==>
         r != 0 && (y == r || Before(m.nodes[y].key, m.nodes[r].key))
  }

  /** A search that has stopped at `x` on a level because the next node is not before
      its target knows where the target is on that level. */
  lemma SearchEnds(m: Memory, list: seq<nat>, l: nat, x: nat, b: Bound)
    requires LevelOk(m.nodes, list, l) && StandsBefore(m, list, x, b)
    requires x < |m.nodes| && l < |m.nodes[x].next|
    requires m.nodes[x].next[l] == 0 || (m.nodes[x].next[l] < |m.nodes| && !Below(m.nodes[m.nodes[x].next[l]].key, b))
    ensures IsLastBefore(m, list, b, x)
    ensures b.Key? ==> IsFirstFrom(m, list, b.key, m.nodes[x].next[l])
  {
    hide LevelOk;
    ReadNext(m, list, l, x);
    var next := m.nodes[x].next[l];
    forall y | y in list
      ensures Below(m.nodes[y].key, b) ==> x != 0 && (y == x || Before(m.nodes[y].key, m.nodes[x].key))
      ensures !Below(m.nodes[y].key, b) ==> next != 0 && (y == next || Before(m.nodes[next].key, m.nodes[y].key))
    {
    }
  }

  // ---------------------------------------------------------------- pointer writes

  /** Where a new node goes on one level. */
  ghost predicate Gap(m: Memory, list: seq<nat>, l: nat, p: nat, key: InternalKey) {
    && StandsBefore(m, list, p, Key(key))
    && p < |m.nodes| && l < |m.nodes[p].next|
    && (m.nodes[p].next[l] == 0 || (m.nodes[p].next[l] < |m.nodes| && Before(key, m.nodes[m.nodes[p].next[l]].key)))
  }

  function SetLink(m: Memory, x: nat, l: nat, y: nat): Memory
    requires x < |m.nodes| && l < |m.nodes[x].next|
  {
    m.(nodes := m.nodes[x := m.nodes[x].(next := m.nodes[x].next[l := y])])
  }

  function Inserted(list: seq<nat>, i: nat, x: nat): seq<nat>
    requires i <= |list|
  {
    list[..i] + [x] + list[i..]
  }

  /** A write to a link of a node that is not on that level disturbs no list. */
  lemma PrivateWrite(m: Memory, levels: Levels, x: nat, l: nat, y: nat)
    requires ListInv(m, levels) && 0 < x < |m.nodes| && l < |m.nodes[x].next| && l < kMaxHeight && x !in levels[l]
    ensures ListInv(SetLink(m, x, l, y), levels)
  {
    var m' := SetLink(m, x, l, y);
    forall j: nat | j < kMaxHeight
      ensures LevelOk(m'.nodes, levels[j], j)
    {
      SameLinks(m.nodes, m'.nodes, levels[j], j);
    }
  }

  /** A level depends only on the keys, heights and its own links of its nodes. */
  lemma SameLinks(nodes: seq<Node>, nodes': seq<Node>, list: seq<nat>, l: nat)
    requires LevelOk(nodes, list, l) && |nodes| <= |nodes'|
    requires forall x :: x == 0 || x in list ==>
               x < |nodes| && nodes'[x].key == nodes[x].key && |nodes'[x].next| == |nodes[x].next| &&
               l < |nodes[x].next| && nodes'[x].next[l] == nodes[x].next[l]
    ensures LevelOk(nodes', list, l)
  {
    assert forall i :: 0 <= i < |list| ==> list[i] in list;
    forall i: nat | i <= |list|
      ensures nodes'[Stop(list, i)].next[l] == After(list, i)
    {
      assert Stop(list, i) == 0 || Stop(list, i) in list;
    }
  }

  /** Publishing: linking a prepared node in at level `l` inserts it there, and only there. */
  lemma Publish(m: Memory, levels: Levels, x: nat, l: nat, p: nat) returns (i: nat)
    requires ListInv(m, levels) && 0 < x < |m.nodes| && l < |m.nodes[x].next| && l < m.maxHeight
    requires forall j :: l <= j < kMaxHeight ==> x !in levels[j]
    requires forall j :: 0 <= j < l ==> x in levels[j]
    requires Gap(m, levels[l], l, p, m.nodes[x].key) && m.nodes[x].next[l] == m.nodes[p].next[l]
    ensures i <= |levels[l]| && Stop(levels[l], i) == p
    ensures ListInv(SetLink(m, p, l, x), levels[l := Inserted(levels[l], i, x)])
  {
    i := IndexOf(levels[l], p);
    var m', levels' := SetLink(m, p, l, x), levels[l := Inserted(levels[l], i, x)];
    forall j: nat | j < kMaxHeight
      ensures LevelOk(m'.nodes, levels'[j], j)
    {
      if j == l {
        InsertOk(m, levels[l], l, x, p, i);
      } else {
        OtherLevel(m, levels[j], j, l, p, x);
      }
    }
    forall j: nat, k: nat, y | j < k < kMaxHeight && y in levels'[k]
      ensures y in levels'[j]
    {
      InsertedMembers(levels[l], i, x, y);
    }
  }

  lemma InsertedMembers(list: seq<nat>, i: nat, x: nat, y: nat)
    requires i <= |list|
    ensures y in Inserted(list, i, x) <==> y in list || y == x
  {
    assert list == list[..i] + list[i..];
  }

  lemma OtherLevel(m: Memory, list: seq<nat>, j: nat, l: nat, p: nat, x: nat)
    requires LevelOk(m.nodes, list, j) && j != l && p < |m.nodes| && l < |m.nodes[p].next|
    ensures LevelOk(SetLink(m, p, l, x).nodes, list, j)
  {
    forall y | y == 0 || y in list
      ensures y < |m.nodes| && j < |m.nodes[y].next|
    {
      ReadNext(m, list, j, y);
    }
    SameLinks(m.nodes, SetLink(m, p, l, x).nodes, list, j);
  }

  lemma InsertOk(m: Memory, list: seq<nat>, l: nat, x: nat, p: nat, i: nat)
    requires LevelOk(m.nodes, list, l) && 0 < x < |m.nodes| && l < |m.nodes[x].next| && x !in list
    requires Gap(m, list, l, p, m.nodes[x].key) && m.nodes[x].next[l] == m.nodes[p].next[l]
    requires i <= |list| && Stop(list, i) == p
    ensures LevelOk(SetLink(m, p, l, x).nodes, Inserted(list, i, x), l)
  {
    var nodes', list' := SetLink(m, p, l, x).nodes, Inserted(list, i, x);
    assert m.nodes[p].next[l] == After(list, i);
    forall j: nat | j < |list|
      ensures j < i ==> Before(m.nodes[list[j]].key, m.nodes[x].key)
      ensures i <= j ==> Before(m.nodes[x].key, m.nodes[list[j]].key)
    {
      LevelOrder(m.nodes, list, l, j, i);
    }
    assert OnLevel(nodes', list', l);
    assert Increasing(nodes', list', l);
    forall j: nat | j <= |list'|
      ensures nodes'[Stop(list', j)].next[l] == After(list', j)
    {
      if j < i {
        assert Stop(list', j) == Stop(list, j) && After(list', j) == After(list, j);
      } else if j > i + 1 {
        assert Stop(list', j) == Stop(list, j - 1) && After(list', j) == After(list, j - 1);
      }
      DistinctStops(m.nodes, list, l, i);
    }
  }

  /** An address occurs at one stop only. */
  lemma DistinctStops(nodes: seq<Node>, list: seq<nat>, l: nat, i: nat)
    requires LevelOk(nodes, list, l) && i <= |list|
    ensures forall j :: 0 <= j <= |list| && j != i ==> Stop(list, j) != Stop(list, i)
  {
  }

  // ---------------------------------------------------------------- searching

  lemma HeadStands(m: Memory, list: seq<nat>, b: Bound)
    ensures StandsBefore(m, list, 0, b)
  {
  }

  /** One pointer read, in terms of the stop the search is at. */
  lemma StopRead(m: Memory, levels: Levels, level: nat, x: nat, i: nat, b: Bound)
    requires ListInv(m, levels) && level < kMaxHeight
    requires i <= |levels[level]| && Stop(levels[level], i) == x && StandsBefore(m, levels[level], x, b)
    ensures LevelOk(m.nodes, levels[level], level)
    ensures x < |m.nodes| && level < |m.nodes[x].next|
    ensures m.nodes[x].next[level] == After(levels[level], i) && m.nodes[x].next[level] < |m.nodes|
    ensures m.nodes[x].next[level] != 0 ==> m.nodes[x].next[level] in levels[level] && i < |levels[level]|
  {
    ReadNext(m, levels[level], level, x);
  }

  lemma MovesOn(m: Memory, list: seq<nat>, next: nat, b: Bound)
    requires next in list && next < |m.nodes| && Below(m.nodes[next].key, b)
    ensures StandsBefore(m, list, next, b)
  {
  }

  /** The search goes down a level without moving. */
  lemma DropLevel(m: Memory, levels: Levels, level: nat, x: nat, b: Bound) returns (i: nat)
    requires ListInv(m, levels) && 0 < level < kMaxHeight && StandsBefore(m, levels[level], x, b)
    ensures StandsBefore(m, levels[level - 1], x, b)
    ensures i <= |levels[level - 1]| && Stop(levels[level - 1], i) == x
  {
    i := IndexOf(levels[level - 1], x);
  }

  lemma AddressesOk(m: Memory, levels: Levels)
    requires ListInv(m, levels)
    ensures forall x :: x in levels[0] ==> 0 < x < |m.nodes|
  {
    assert LevelOk(m.nodes, levels[0], 0);
  }

  const EmptyLevels: Levels := [[], [], [], [], [], [], [], [], [], [], [], []]

  lemma EmptyOk(nodes: seq<Node>)
    requires |nodes| == 1 && nodes[0].next == [0, 0, 0, 0, 0, 0, 0, 0, 0, 0, 0, 0]
    ensures ListInv(Memory(nodes, 1), EmptyLevels)
  {
    forall l: nat | l < kMaxHeight
      ensures EmptyLevels[l] == [] && nodes[0].next[l] == 0
    {
    }
  }

  // ---------------------------------------------------------------- gaps

  /** The places found by the search, on the levels `lo .. hi`. */
  ghost predicate Gaps(m: Memory, levels: Levels, prev: seq<nat>, lo: nat, hi: nat, key: InternalKey) {
    && |levels| == |prev| == kMaxHeight
    && forall l :: lo <= l < hi && l < kMaxHeight ==> Gap(m, levels[l], l, prev[l], key)
  }

  lemma GapsFound(m: Memory, levels: Levels, prev: seq<nat>, key: InternalKey)
    requires ListInv(m, levels) && |prev| == kMaxHeight
    requires forall x :: x in levels[0] ==> x < |m.nodes| && m.nodes[x].key != key
    requires forall l :: 0 <= l < m.maxHeight ==> IsLastBefore(m, levels[l], Key(key), prev[l])
    ensures Gaps(m, levels, prev, 0, m.maxHeight, key)
  {
    hide LevelOk;
    forall l: nat | l < m.maxHeight
      ensures Gap(m, levels[l], l, prev[l], key)
    {
      assert LevelOk(m.nodes, levels[l], l);
      ReadNext(m, levels[l], l, prev[l]);
      var next := m.nodes[prev[l]].next[l];
      if next != 0 {
        assert next in levels[0];
      }
    }
  }

  lemma HigherList(m: Memory, levels: Levels, prev: seq<nat>, height: nat, key: InternalKey)
    requires ListInv(m, levels) && m.maxHeight <= height <= kMaxHeight
    requires Gaps(m, levels, prev, 0, m.maxHeight, key)
    requires forall l :: m.maxHeight <= l < height ==> prev[l] == 0
    ensures ListInv(m.(maxHeight := height), levels) && Gaps(m.(maxHeight := height), levels, prev, 0, height, key)
    ensures forall x :: x in levels[0] ==> x < |m.nodes|
    ensures Keys(m.(maxHeight := height), levels[0]) == Keys(m, levels[0])
  {
    AddressesOk(m, levels);
    forall l: nat | m.maxHeight <= l < height
      ensures Gap(m, levels[l], l, 0, key)
    {
      assert LevelOk(m.nodes, levels[l], l);
      assert m.nodes[Stop(levels[l], 0)].next[l] == After(levels[l], 0);
    }
  }

  function Nulls(n: nat): (r: seq<nat>)
    ensures |r| == n && forall i :: 0 <= i < n ==> r[i] == 0
  {
    seq(n, _ => 0)
  }

  /** A freshly allocated node is on no level. */
  lemma NewNode(m: Memory, levels: Levels, prev: seq<nat>, height: nat, node: Node)
    requires ListInv(m, levels) && Gaps(m, levels, prev, 0, height, node.key)
    ensures ListInv(m.(nodes := m.nodes + [node]), levels)
    ensures Gaps(m.(nodes := m.nodes + [node]), levels, prev, 0, height, node.key)
    ensures forall l :: 0 <= l < kMaxHeight ==> |m.nodes| !in levels[l]
  {
    var m' := m.(nodes := m.nodes + [node]);
    forall l: nat | l < kMaxHeight
      ensures LevelOk(m'.nodes, levels[l], l) && |m.nodes| !in levels[l]
    {
      assert LevelOk(m.nodes, levels[l], l);
      forall y | y == 0 || y in levels[l]
        ensures y < |m.nodes| && l < |m.nodes[y].next|
      {
        ReadNext(m, levels[l], l, y);
      }
      SameLinks(m.nodes, m'.nodes, levels[l], l);
    }
  }

  /** A write to a private node leaves the places as they were. */
  lemma GapsPrivate(m: Memory, levels: Levels, prev: seq<nat>, lo: nat, hi: nat, x: nat, y: nat, key: InternalKey)
    requires ListInv(m, levels) && Gaps(m, levels, prev, lo, hi, key) && lo < hi <= kMaxHeight
    requires 0 < x < |m.nodes| && lo < |m.nodes[x].next|
    requires forall l :: lo <= l < kMaxHeight ==> x !in levels[l]
    ensures Gaps(SetLink(m, x, lo, y), levels, prev, lo, hi, key)
  {
  }

  /** Publishing on one level leaves the places on the higher ones as they were. */
  lemma GapsPublished(m: Memory, levels: Levels, prev: seq<nat>, lo: nat, hi: nat, x: nat, at: nat, key: InternalKey)
    requires ListInv(m, levels) && Gaps(m, levels, prev, lo, hi, key) && lo < hi <= kMaxHeight
    requires at <= |levels[lo]|
    ensures Gaps(SetLink(m, prev[lo], lo, x), levels[lo := Inserted(levels[lo], at, x)], prev, lo + 1, hi, key)
  {
  }

  /** Only publishing on level 0 changes the contents, by the one key. */
  lemma ContentsPublished(m: Memory, levels: Levels, l: nat, p: nat, x: nat, at: nat)
    requires ListInv(m, levels) && l < kMaxHeight && x < |m.nodes| && p < |m.nodes| && l < |m.nodes[p].next|
    requires at <= |levels[l]| && ListInv(SetLink(m, p, l, x), levels[l := Inserted(levels[l], at, x)])
    ensures forall y :: y in levels[0] || y in levels[l := Inserted(levels[l], at, x)][0] ==> y < |m.nodes|
    ensures Keys(SetLink(m, p, l, x), levels[l := Inserted(levels[l], at, x)][0]) ==
            Keys(m, levels[0]) + if l == 0 then {m.nodes[x].key} else {}
  {
    AddressesOk(m, levels);
    AddressesOk(SetLink(m, p, l, x), levels[l := Inserted(levels[l], at, x)]);
    var list' := levels[l := Inserted(levels[l], at, x)][0];
    forall y
      ensures y in list' <==> y in levels[0] || (l == 0 && y == x)
    {
      if l == 0 {
        InsertedMembers(levels[0], at, x, y);
      }
    }
    var m' := SetLink(m, p, l, x);
    assert forall y :: 0 <= y < |m.nodes| ==> m'.nodes[y].key == m.nodes[y].key;
    forall k
      ensures k in Keys(m', list') <==> k in Keys(m, levels[0]) || (l == 0 && k == m.nodes[x].key)
    {
      if k in Keys(m', list') {
        var y :| y in list' && m'.nodes[y].key == k;
        assert y in levels[0] ==> m.nodes[y].key in Keys(m, levels[0]);
      }
      if k in Keys(m, levels[0]) {
        var y :| y in levels[0] && m.nodes[y].key == k;
        assert y in list' && m'.nodes[y].key == k;
      }
      if l == 0 && k == m.nodes[x].key {
        assert x in list' && m'.nodes[x].key == k;
      }
    }
  }

  // ---------------------------------------------------------------- the list

  /** Node `x` is new on the lowest `height` levels, and nothing else is new or gone. */
  ghost predicate OnLevels(before: Levels, levels: Levels, x: nat, height: nat) {
    && |before| == |levels| == kMaxHeight
    && forall l, y :: 0 <= l < kMaxHeight ==> (y in levels[l] <==> y in before[l] || (y == x && l < height))
  }

  class List {
    var nodes: seq<Node>
    var maxHeight: nat
    ghost var levels: Levels

    ghost function Mem(): Memory
      reads this
    {
      Memory(nodes, maxHeight)
    }

    ghost predicate Valid()
      reads this
    {
      ListInv(Mem(), levels)
    }

    /** The keys in the list, in order. */
    ghost function Contents(): set<InternalKey>
      requires Valid()
      reads this
    {
      AddressesOk(Mem(), levels);
      Keys(Mem(), levels[0])
    }

    constructor ()
      ensures Valid() && Contents() == {}
    {
      nodes := [Node(InternalKey(0.0, 0), [0, 0, 0, 0, 0, 0, 0, 0, 0, 0, 0, 0])];
      maxHeight := 1;
      levels := EmptyLevels;
      new;
      EmptyOk(nodes);
    }

    /** The earliest node at or after `key` (0 if there is none), and the last node
        before `key` on every level in use. */
    method FindGreaterOrEqual(key: InternalKey) returns (r: nat, prev: seq<nat>)
      requires Valid()
      ensures IsFirstFrom(Mem(), levels[0], key, r)
      ensures |prev| == kMaxHeight && forall l :: 0 <= l < maxHeight ==> IsLastBefore(Mem(), levels[l], Key(key), prev[l])
    {
      hide LevelOk, IsFirstFrom, IsLastBefore, StandsBefore, Follows;
      var x, level := 0, maxHeight - 1;
      prev := [0, 0, 0, 0, 0, 0, 0, 0, 0, 0, 0, 0];
      ghost var i: nat := 0;
      HeadStands(Mem(), levels[level], Key(key));
      while true
        invariant 0 <= level < maxHeight && |prev| == kMaxHeight
        invariant i <= |levels[level]| && Stop(levels[level], i) == x
        invariant StandsBefore(Mem(), levels[level], x, Key(key))
        invariant forall l :: level < l < maxHeight ==> IsLastBefore(Mem(), levels[l], Key(key), prev[l])
        decreases level, |levels[level]| - i
      {
        StopRead(Mem(), levels, level, x, i, Key(key));
        var next := nodes[x].next[level];
        if next != 0 && Before(nodes[next].key, key) {
          MovesOn(Mem(), levels[level], next, Key(key));
          x := next;
          i := i + 1;
        } else {
          SearchEnds(Mem(), levels[level], level, x, Key(key));
          prev := prev[level := x];
          if level == 0 {
            return next, prev;
          } else {
            i := DropLevel(Mem(), levels, level, x, Key(key));
            level := level - 1;
          }
        }
      }
    }

    /** The latest node before `key`, or the head. */
    method FindLessThan(key: InternalKey) returns (r: nat)
      requires Valid()
      ensures IsLastBefore(Mem(), levels[0], Key(key), r)
    {
      r := Walk(Key(key));
    }

    /** The last node, or the head. */
    method FindLast() returns (r: nat)
      requires Valid()
      ensures IsLastBefore(Mem(), levels[0], Infinity, r)
    {
      r := Walk(Infinity);
    }

    /** The walk that FindLessThan and FindLast share; FindLast stops only at nullptr. */
    method Walk(b: Bound) returns (r: nat)
      requires Valid()
      ensures IsLastBefore(Mem(), levels[0], b, r)
    {
      hide LevelOk, IsFirstFrom, IsLastBefore, StandsBefore, Follows;
      var x, level := 0, maxHeight - 1;
      ghost var i: nat := 0;
      HeadStands(Mem(), levels[level], b);
      while true
        invariant 0 <= level < maxHeight
        invariant i <= |levels[level]| && Stop(levels[level], i) == x
        invariant StandsBefore(Mem(), levels[level], x, b)
        decreases level, |levels[level]| - i
      {
        StopRead(Mem(), levels, level, x, i, b);
        var next := nodes[x].next[level];
        if next == 0 || !Below(nodes[next].key, b) {
          SearchEnds(Mem(), levels[level], level, x, b);
          if level == 0 {
            return x;
          } else {
            i := DropLevel(Mem(), levels, level, x, b);
            level := level - 1;
          }
        } else {
          MovesOn(Mem(), levels[level], next, b);
          x := next;
          i := i + 1;
        }
      }
    }

    method Contains(key: InternalKey) returns (r: bool)
      requires Valid()
      ensures r <==> key in Contents()
    {
      var x, _ := FindGreaterOrEqual(key);
      r := x != 0 && nodes[x].key == key;
      if key in Contents() {
        var y :| y in levels[0] && nodes[y].key == key;
      }
    }

    /** Insert a key that is not in the list, with the height that RandomHeight chose. */
    method Insert(key: InternalKey, height: nat)
      requires Valid() && key !in Contents() && 1 <= height <= kMaxHeight
      modifies this
      ensures Valid() && Contents() == old(Contents()) + {key}
      ensures |nodes| == |old(nodes)| + 1 && forall x :: 0 <= x < |old(nodes)| ==> nodes[x].key == old(nodes)[x].key
      ensures maxHeight == if height > old(maxHeight) then height else old(maxHeight)
      ensures OnLevels(old(levels), levels, |old(nodes)|, height)
    {
      hide LevelOk, IsFirstFrom, IsLastBefore, Gap, Follows, StandsBefore, ListInv, Keys;
      ghost var before, all := Contents(), levels;
      var _, prev := FindGreaterOrEqual(key);
      NotPresent(Mem(), levels, key);
      GapsFound(Mem(), levels, prev, key);
      if height > maxHeight {
        for i := maxHeight to height
          invariant |prev| == kMaxHeight && Gaps(Mem(), levels, prev, 0, maxHeight, key)
          invariant forall l :: maxHeight <= l < i ==> prev[l] == 0
        {
          prev := prev[i := 0];
        }
        HigherList(Mem(), levels, prev, height, key);
        maxHeight := height;
      }
      var x := |nodes|;
      NewNode(Mem(), levels, prev, height, Node(key, Nulls(height)));
      SameContents(Mem(), levels, Node(key, Nulls(height)));
      nodes := nodes + [Node(key, Nulls(height))];
      for i := 0 to height
        invariant Valid() && |prev| == kMaxHeight && x == |old(nodes)| && 0 < x < |nodes|
        invariant |levels| == kMaxHeight && height <= maxHeight <= kMaxHeight
        invariant nodes[x].key == key && |nodes[x].next| == height
        invariant forall l :: 0 <= l < i ==> x in levels[l]
        invariant forall l :: i <= l < kMaxHeight ==> x !in levels[l]
        invariant maxHeight == (if height > old(maxHeight) then height else old(maxHeight)) && |nodes| == x + 1
        invariant OnLevels(all, levels, x, i)
        invariant Gaps(Mem(), levels, prev, i, height, key)
        invariant Contents() == before + (if i == 0 then {} else {key})
        invariant forall y :: 0 <= y < x ==> nodes[y].key == old(nodes)[y].key
      {
        LinkAt(x, i, height, prev, key);
      }
    }

    /** One level of the insertion: two pointer writes, after each of which every level
        is well formed. */
    method LinkAt(x: nat, i: nat, height: nat, prev: seq<nat>, key: InternalKey)
      requires Valid() && |prev| == kMaxHeight && 0 < x < |nodes| && i < height <= maxHeight
      requires nodes[x].key == key && |nodes[x].next| == height && |levels| == kMaxHeight && maxHeight <= kMaxHeight
      requires forall l :: 0 <= l < i ==> x in levels[l]
      requires forall l :: i <= l < kMaxHeight ==> x !in levels[l]
      requires Gaps(Mem(), levels, prev, i, height, key)
      modifies this
      ensures Valid() && maxHeight == old(maxHeight) && |nodes| == |old(nodes)| && |levels| == kMaxHeight
      ensures |nodes[x].next| == height
      ensures forall y :: 0 <= y < |nodes| ==> nodes[y].key == old(nodes)[y].key
      ensures forall l :: 0 <= l < kMaxHeight && l != i ==> levels[l] == old(levels)[l]
      ensures forall y :: y in levels[i] <==> y in old(levels)[i] || y == x
      ensures Gaps(Mem(), levels, prev, i + 1, height, key)
      ensures Contents() == old(Contents()) + if i == 0 then {key} else {}
    {
      hide LevelOk, IsFirstFrom, IsLastBefore, Follows, ListInv;
      assert Gap(Mem(), levels[i], i, prev[i], key);
      var next := nodes[prev[i]].next[i];
      PrivateWrite(Mem(), levels, x, i, next);
      GapsPrivate(Mem(), levels, prev, i, height, x, next, key);
      SameKeys(Mem(), levels, x, i, next);
      NotPrev(Mem(), levels, i, x, prev[i]);
      nodes := SetLink(Memory(nodes, maxHeight), x, i, next).nodes;
      assert Valid();
      assert Gap(Mem(), levels[i], i, prev[i], key);
      ghost var at := Publish(Mem(), levels, x, i, prev[i]);
      GapsPublished(Mem(), levels, prev, i, height, x, at, key);
      ContentsPublished(Mem(), levels, i, prev[i], x, at);
      forall y
        ensures y in Inserted(levels[i], at, x) <==> y in levels[i] || y == x
      {
        InsertedMembers(levels[i], at, x, y);
      }
      nodes := SetLink(Memory(nodes, maxHeight), prev[i], i, x).nodes;
      levels := levels[i := Inserted(levels[i], at, x)];
    }
  }

  lemma NotPresent(m: Memory, levels: Levels, key: InternalKey)
    requires ListInv(m, levels)
    ensures m.nodes != [] && forall x :: x in levels[0] ==> x < |m.nodes|
    ensures key !in Keys(m, levels[0]) ==> forall x :: x in levels[0] ==> m.nodes[x].key != key
  {
    AddressesOk(m, levels);
    assert LevelOk(m.nodes, levels[0], 0);
  }

  lemma SameContents(m: Memory, levels: Levels, node: Node)
    requires ListInv(m, levels)
    ensures forall x :: x in levels[0] ==> x < |m.nodes|
    ensures Keys(m.(nodes := m.nodes + [node]), levels[0]) == Keys(m, levels[0])
  {
    AddressesOk(m, levels);
    var m' := m.(nodes := m.nodes + [node]);
    assert forall x :: x in levels[0] ==> m'.nodes[x].key == m.nodes[x].key;
  }

  lemma SameKeys(m: Memory, levels: Levels, x: nat, l: nat, y: nat)
    requires ListInv(m, levels) && x < |m.nodes| && l < |m.nodes[x].next|
    ensures forall z :: z in levels[0] ==> z < |m.nodes|
    ensures Keys(SetLink(m, x, l, y), levels[0]) == Keys(m, levels[0])
  {
    AddressesOk(m, levels);
    var m' := SetLink(m, x, l, y);
    assert forall z :: z in levels[0] ==> m'.nodes[z].key == m.nodes[z].key;
  }

  /** A private node is nobody's predecessor. */
  lemma NotPrev(m: Memory, levels: Levels, l: nat, x: nat, p: nat)
    requires |levels| == kMaxHeight && l < kMaxHeight && x !in levels[l] && x > 0
    requires p == 0 || p in levels[l]
    ensures p != x
  {
  }

  // ---------------------------------------------------------------- concurrent readers

  /** Where the inserting thread is, between two of its writes. */
  datatype Inserter = Idle
                    | Found(key: InternalKey, height: nat, prev: seq<nat>)
                    | Raised(key: InternalKey, height: nat, prev: seq<nat>)
                    | Linking(key: InternalKey, height: nat, prev: seq<nat>, x: nat, i: nat, prepared: bool)

  /** What a reader looks for: the first node at or after a key (FindGreaterOrEqual), or
      the last node before a bound (FindLessThan, FindLast). */
  datatype Query = FirstFrom(key: InternalKey) | LastBefore(bound: Bound)

  datatype Reader = Starting(q: Query) | Walking(q: Query, level: nat, x: nat) | Finished(q: Query, result: nat)

  datatype World = World(m: Memory, levels: Levels, ins: Inserter, readers: seq<Reader>)

  function Target(q: Query): Bound {
    match q
    case FirstFrom(key) => Key(key)
    case LastBefore(b) => b
  }

  // -- one atomic step of the inserter

  ghost predicate BeginInsert(w: World, w': World) {
    exists key, height: nat, prev ::
      && w.ins.Idle? && 1 <= height <= kMaxHeight
      && Gaps(w.m, w.levels, prev, 0, w.m.maxHeight, key)
      && (forall l :: w.m.maxHeight <= l < kMaxHeight && l < |prev| ==> prev[l] == 0)
      && w' == w.(ins := Found(key, height, prev))
  }

  ghost predicate RaiseHeight(w: World, w': World) {
    && w.ins.Found?
    && w' == w.(m := w.m.(maxHeight := if w.ins.height > w.m.maxHeight then w.ins.height else w.m.maxHeight),
                ins := Raised(w.ins.key, w.ins.height, w.ins.prev))
  }

  ghost predicate Allocate(w: World, w': World) {
    && w.ins.Raised?
    && w' == w.(m := w.m.(nodes := w.m.nodes + [Node(w.ins.key, Nulls(w.ins.height))]),
                ins := Linking(w.ins.key, w.ins.height, w.ins.prev, |w.m.nodes|, 0, false))
  }

  ghost predicate PrepareLink(w: World, w': World) {
    && LinkReady(w) && !w.ins.prepared
    && var i, x := w.ins.i, w.ins.x;
       w' == w.(m := SetLink(w.m, x, i, w.m.nodes[w.ins.prev[i]].next[i]), ins := w.ins.(prepared := true))
  }

  /** The addresses the next write needs are good. */
  ghost predicate LinkReady(w: World) {
    && w.ins.Linking? && w.ins.i < |w.ins.prev|
    && w.ins.x < |w.m.nodes| && w.ins.i < |w.m.nodes[w.ins.x].next|
    && w.ins.prev[w.ins.i] < |w.m.nodes| && w.ins.i < |w.m.nodes[w.ins.prev[w.ins.i]].next|
  }

  ghost predicate PublishLink(w: World, w': World) {
    && LinkReady(w) && w.ins.prepared && w.ins.i < |w.levels|
    && exists at: nat ::
         && at <= |w.levels[w.ins.i]| && Stop(w.levels[w.ins.i], at) == w.ins.prev[w.ins.i]
         && w' == AfterPublish(w, at)
  }

  function AfterPublish(w: World, at: nat): World
    requires w.ins.Linking? && w.ins.i < |w.ins.prev| && w.ins.i < |w.levels| && at <= |w.levels[w.ins.i]|
    requires w.ins.prev[w.ins.i] < |w.m.nodes| && w.ins.i < |w.m.nodes[w.ins.prev[w.ins.i]].next|
  {
    var i, x := w.ins.i, w.ins.x;
    w.(m := SetLink(w.m, w.ins.prev[i], i, x), levels := w.levels[i := Inserted(w.levels[i], at, x)],
       ins := if i + 1 == w.ins.height then Idle else w.ins.(i := i + 1, prepared := false))
  }

  // -- one atomic step of a reader

  ghost predicate ReaderMoves(w: World, w': World) {
    || (exists q :: w' == w.(readers := w.readers + [Starting(q)]))
    || exists r: nat :: r < |w.readers| && CanRead(w, r) && w' == w.(readers := w.readers[r := AfterRead(w, r)])
  }

  ghost predicate CanRead(w: World, r: nat)
    requires r < |w.readers|
  {
    var reader := w.readers[r];
    || (reader.Starting? && w.m.maxHeight > 0)
    || (reader.Walking? && reader.x < |w.m.nodes| && reader.level < |w.m.nodes[reader.x].next|
        && w.m.nodes[reader.x].next[reader.level] < |w.m.nodes|)
  }

  /** Reading the height, or one link. */
  function AfterRead(w: World, r: nat): Reader
    requires r < |w.readers| && CanRead(w, r)
  {
    var reader := w.readers[r];
    match reader
    case Starting(q) => Walking(q, w.m.maxHeight - 1, 0)
    case Finished(_, _) => reader
    case Walking(q, level, x) =>
      var next := w.m.nodes[x].next[level];
      if next != 0 && Below(w.m.nodes[next].key, Target(q)) then Walking(q, level, next)
      else if level > 0 then Walking(q, level - 1, x)
      else Finished(q, if q.FirstFrom? then next else x)
  }

  ghost predicate WorldStep(w: World, w': World) {
    || BeginInsert(w, w') || RaiseHeight(w, w') || Allocate(w, w') || PrepareLink(w, w') || PublishLink(w, w')
    || ReaderMoves(w, w')
  }

  // -- the invariant

  ghost predicate InserterOk(m: Memory, levels: Levels, ins: Inserter) {
    match ins
    case Idle => true
    case Found(key, height, prev) =>
      && 1 <= height <= kMaxHeight && Gaps(m, levels, prev, 0, m.maxHeight, key)
      && forall l :: m.maxHeight <= l < kMaxHeight ==> prev[l] == 0
    case Raised(key, height, prev) =>
      1 <= height <= m.maxHeight && Gaps(m, levels, prev, 0, height, key)
    case Linking(key, height, prev, x, i, prepared) =>
      && |levels| == kMaxHeight && i < height <= m.maxHeight <= kMaxHeight && Gaps(m, levels, prev, i, height, key)
      && 0 < x < |m.nodes| && m.nodes[x].key == key && |m.nodes[x].next| == height
      && (forall l :: 0 <= l < i ==> x in levels[l])
      && (forall l :: i <= l < kMaxHeight ==> x !in levels[l])
      && (prepared ==> prev[i] < |m.nodes| && i < |m.nodes[prev[i]].next| && m.nodes[x].next[i] == m.nodes[prev[i]].next[i])
  }

  /** A reader stands on a published node of its level, before its target. */
  ghost predicate ReaderOk(m: Memory, levels: Levels, r: Reader) {
    r.Walking? ==> r.level < |levels| && StandsBefore(m, levels[r.level], r.x, Target(r.q))
  }

  ghost predicate ReadersOk(m: Memory, levels: Levels, readers: seq<Reader>) {
    forall r :: 0 <= r < |readers| ==> ReaderOk(m, levels, readers[r])
  }

  ghost predicate WorldInv(w: World) {
    ListInv(w.m, w.levels) && InserterOk(w.m, w.levels, w.ins) && ReadersOk(w.m, w.levels, w.readers)
  }

  /** Nodes keep their keys and stay where they are; levels only grow. */
  ghost predicate Grows(m: Memory, levels: Levels, m': Memory, levels': Levels) {
    && |m.nodes| <= |m'.nodes| && |levels| == |levels'|
    && (forall y :: 0 <= y < |m.nodes| ==> m'.nodes[y].key == m.nodes[y].key)
    && forall l, y :: 0 <= l < |levels| && y in levels[l] ==> y in levels'[l]
  }

  lemma ReadersKept(m: Memory, levels: Levels, m': Memory, levels': Levels, readers: seq<Reader>)
    requires ReadersOk(m, levels, readers) && Grows(m, levels, m', levels')
    ensures ReadersOk(m', levels', readers)
  {
    forall r | 0 <= r < |readers|
      ensures ReaderOk(m', levels', readers[r])
    {
      assert ReaderOk(m, levels, readers[r]);
    }
  }

  lemma InserterStepInv(w: World, w': World)
    requires WorldInv(w)
    requires BeginInsert(w, w') || RaiseHeight(w, w') || Allocate(w, w') || PrepareLink(w, w') || PublishLink(w, w')
    ensures WorldInv(w') && Grows(w.m, w.levels, w'.m, w'.levels)
  {
    hide ListInv, Gaps, ReadersOk, SetLink, Inserted;
    if BeginInsert(w, w') {
      GapsShape(w, w');
    } else if RaiseHeight(w, w') {
      RaiseInv(w, w');
    } else if Allocate(w, w') {
      NewNode(w.m, w.levels, w.ins.prev, w.ins.height, Node(w.ins.key, Nulls(w.ins.height)));
      AllocateInv(w, w');
    } else if PrepareLink(w, w') {
      PrepareInv(w, w');
    } else {
      PublishInv(w, w');
    }
    ReadersKept(w.m, w.levels, w'.m, w'.levels, w.readers);
  }

  lemma GapsShape(w: World, w': World)
    requires WorldInv(w) && BeginInsert(w, w')
    ensures InserterOk(w'.m, w'.levels, w'.ins) && Grows(w.m, w.levels, w'.m, w'.levels)
    ensures w'.m == w.m && w'.levels == w.levels && w'.readers == w.readers
  {
    hide Gap;
  }

  lemma RaiseInv(w: World, w': World)
    requires WorldInv(w) && RaiseHeight(w, w')
    ensures ListInv(w'.m, w'.levels) && InserterOk(w'.m, w'.levels, w'.ins) && Grows(w.m, w.levels, w'.m, w'.levels)
  {
    hide LevelOk, Gap;
    var height := if w.ins.height > w.m.maxHeight then w.ins.height else w.m.maxHeight;
    HigherList(w.m, w.levels, w.ins.prev, height, w.ins.key);
  }

  lemma AllocateInv(w: World, w': World)
    requires WorldInv(w) && Allocate(w, w')
    requires ListInv(w'.m, w'.levels) && Gaps(w'.m, w'.levels, w.ins.prev, 0, w.ins.height, w.ins.key)
    requires forall l :: 0 <= l < kMaxHeight ==> |w.levels| == kMaxHeight && |w.m.nodes| !in w.levels[l]
    ensures InserterOk(w'.m, w'.levels, w'.ins) && Grows(w.m, w.levels, w'.m, w'.levels)
  {
    hide LevelOk, Gap;
    assert LevelOk(w.m.nodes, w.levels[0], 0);
    HeadExists(w.m, w.levels);
  }

  lemma HeadExists(m: Memory, levels: Levels)
    requires ListInv(m, levels)
    ensures m.nodes != []
  {
    assert LevelOk(m.nodes, levels[0], 0);
  }

  lemma PrepareInv(w: World, w': World)
    requires WorldInv(w) && PrepareLink(w, w')
    ensures ListInv(w'.m, w'.levels) && InserterOk(w'.m, w'.levels, w'.ins) && Grows(w.m, w.levels, w'.m, w'.levels)
  {
    hide LevelOk, ListInv;
    var i, x := w.ins.i, w.ins.x;
    var p := w.ins.prev[i];
    assert Gap(w.m, w.levels[i], i, p, w.ins.key);
    NotPrev(w.m, w.levels, i, x, p);
    PrivateWrite(w.m, w.levels, x, i, w.m.nodes[p].next[i]);
    GapsPrivate(w.m, w.levels, w.ins.prev, i, w.ins.height, x, w.m.nodes[p].next[i], w.ins.key);
  }

  lemma PublishInv(w: World, w': World)
    requires WorldInv(w) && PublishLink(w, w')
    ensures ListInv(w'.m, w'.levels) && InserterOk(w'.m, w'.levels, w'.ins) && Grows(w.m, w.levels, w'.m, w'.levels)
  {
    hide LevelOk, ListInv, Gap;
    var i, x := w.ins.i, w.ins.x;
    var p := w.ins.prev[i];
    assert Gap(w.m, w.levels[i], i, p, w.ins.key);
    var at: nat :| at <= |w.levels[i]| && Stop(w.levels[i], at) == p && w' == AfterPublish(w, at);
    var j := Publish(w.m, w.levels, x, i, p);
    OneStop(w.m, w.levels, i, at, j);
    GapsPublished(w.m, w.levels, w.ins.prev, i, w.ins.height, x, at, w.ins.key);
    forall y
      ensures y in Inserted(w.levels[i], at, x) <==> y in w.levels[i] || y == x
    {
      InsertedMembers(w.levels[i], at, x, y);
    }
  }

  lemma OneStop(m: Memory, levels: Levels, l: nat, i: nat, j: nat)
    requires ListInv(m, levels) && l < kMaxHeight && i <= |levels[l]| && j <= |levels[l]|
    requires Stop(levels[l], i) == Stop(levels[l], j)
    ensures i == j
  {
    DistinctStops(m.nodes, levels[l], l, i);
  }

  lemma ReaderStepInv(w: World, w': World)
    requires WorldInv(w) && ReaderMoves(w, w')
    ensures WorldInv(w') && w'.m == w.m && w'.levels == w.levels
  {
    hide ListInv, InserterOk;
    if q :| w' == w.(readers := w.readers + [Starting(q)]) {
    } else {
      var r: nat :| r < |w.readers| && CanRead(w, r) && w' == w.(readers := w.readers[r := AfterRead(w, r)]);
      ReadKeeps(w, r);
    }
  }

  lemma ReadKeeps(w: World, r: nat)
    requires ListInv(w.m, w.levels) && ReadersOk(w.m, w.levels, w.readers) && r < |w.readers| && CanRead(w, r)
    ensures ReaderOk(w.m, w.levels, AfterRead(w, r))
  {
    var reader := w.readers[r];
    assert ReaderOk(w.m, w.levels, reader);
    if reader.Walking? {
      ReadNext(w.m, w.levels[reader.level], reader.level, reader.x);
    }
  }

  /** Whatever a concurrent insertion has done so far, a search returns exactly what the
      list holds at the instant of its last pointer read: the first node at or after the
      key, or the last node before the bound. */
  lemma SearchIsExact(w: World, r: nat)
    requires WorldInv(w) && r < |w.readers| && CanRead(w, r)
    requires w.readers[r].Walking? && AfterRead(w, r).Finished?
    ensures match AfterRead(w, r)
            case Finished(FirstFrom(key), result) => IsFirstFrom(w.m, w.levels[0], key, result)
            case Finished(LastBefore(b), result) => IsLastBefore(w.m, w.levels[0], b, result)
            case _ => true
  {
    var reader := w.readers[r];
    assert ReaderOk(w.m, w.levels, reader);
    SearchEnds(w.m, w.levels[0], 0, reader.x, Target(reader.q));
  }

  // ---------------------------------------------------------------- all interleavings

  ghost predicate IsHistory(run: seq<World>) {
    && run != [] && NewList(run[0])
    && forall i, j :: 0 <= i < j < |run| && j == i + 1 ==> WorldStep(run[i], run[j])
  }

  ghost predicate NewList(w: World) {
    && |w.m.nodes| == 1 && w.m.nodes[0].next == [0, 0, 0, 0, 0, 0, 0, 0, 0, 0, 0, 0] && w.m.maxHeight == 1
    && w.levels == EmptyLevels && w.ins == Idle && w.readers == []
  }

  lemma WorldStepInv(w: World, w': World)
    requires WorldInv(w) && WorldStep(w, w')
    ensures WorldInv(w') && Grows(w.m, w.levels, w'.m, w'.levels)
  {
    hide WorldInv, BeginInsert, RaiseHeight, Allocate, PrepareLink, PublishLink;
    if ReaderMoves(w, w') {
      ReaderStepInv(w, w');
    } else {
      InserterStepInv(w, w');
    }
  }

  /** After every write of every interleaving, each level is strictly sorted and contained
      in the levels below it, and no reader stands on a node that is not published. */
  lemma {:induction false} HistoryInv(run: seq<World>, i: nat)
    requires IsHistory(run) && i < |run|
    ensures WorldInv(run[i])
  {
    hide WorldInv, WorldStep;
    if i == 0 {
      NewListInv(run[0]);
    } else {
      HistoryInv(run, i - 1);
      assert WorldStep(run[i - 1], run[i]);
      WorldStepInv(run[i - 1], run[i]);
    }
  }

  lemma NewListInv(w: World)
    requires NewList(w)
    ensures WorldInv(w)
  {
    EmptyOk(w.m.nodes);
  }

  /** A reader that has not finished can always take its next step. */
  lemma ReaderCanRead(w: World, r: nat)
    requires WorldInv(w) && r < |w.readers| && !w.readers[r].Finished?
    ensures CanRead(w, r)
  {
    var reader := w.readers[r];
    assert ReaderOk(w.m, w.levels, reader);
    if reader.Walking? {
      ReadNext(w.m, w.levels[reader.level], reader.level, reader.x);
    }
  }

  /** In every interleaving, a search that has begun can read its next link, and if that is
      its last read its answer is exact at that instant. */
  lemma EverySearchIsExact(run: seq<World>, i: nat, r: nat)
    requires IsHistory(run) && i < |run| && r < |run[i].readers| && run[i].readers[r].Walking?
    ensures |run[i].levels| == kMaxHeight && CanRead(run[i], r)
    ensures match AfterRead(run[i], r)
            case Finished(FirstFrom(key), result) => IsFirstFrom(run[i].m, run[i].levels[0], key, result)
            case Finished(LastBefore(b), result) => IsLastBefore(run[i].m, run[i].levels[0], b, result)
            case _ => true
  {
    hide WorldStep, WorldInv;
    HistoryInv(run, i);
    TwelveLevels(run[i]);
    ReaderCanRead(run[i], r);
    if AfterRead(run[i], r).Finished? {
      SearchIsExact(run[i], r);
    }
  }

  lemma TwelveLevels(w: World)
    requires WorldInv(w)
    ensures |w.levels| == kMaxHeight
  {
  }

  /** Nothing that a reader could once find disappears. */
  lemma {:induction false} OnlyGrows(run: seq<World>, i: nat, j: nat, x: nat)
    requires IsHistory(run) && i <= j < |run| && |run[i].levels| > 0 && x in run[i].levels[0]
    ensures |run[j].levels| > 0 && x in run[j].levels[0]
    decreases j - i
  {
    hide WorldInv, WorldStep;
    if i < j {
      OnlyGrows(run, i, j - 1, x);
      HistoryInv(run, j - 1);
      assert WorldStep(run[j - 1], run[j]);
      WorldStepInv(run[j - 1], run[j]);
    }
  }

  // ---------------------------------------------------------------- insertions come to their end

  /** Where a key that is not there goes on one level. */
  lemma GapExists(m: Memory, list: seq<nat>, l: nat, key: InternalKey) returns (p: nat)
    requires LevelOk(m.nodes, list, l) && forall x :: x in list ==> x < |m.nodes| && m.nodes[x].key != key
    ensures Gap(m, list, l, p, key)
  {
    var i := 0;
    while i < |list| && Before(m.nodes[list[i]].key, key)
      invariant i <= |list| && (i > 0 ==> Before(m.nodes[list[i - 1]].key, key))
    {
      i := i + 1;
    }
    p := Stop(list, i);
    assert m.nodes[Stop(list, i)].next[l] == After(list, i);
  }

  /** A key that is not in the list can be inserted, with any height. */
  lemma CanBegin(w: World, key: InternalKey, height: nat) returns (w': World)
    requires WorldInv(w) && w.ins.Idle? && 1 <= height <= kMaxHeight
    requires forall x :: x in w.levels[0] ==> x < |w.m.nodes| && w.m.nodes[x].key != key
    ensures BeginInsert(w, w') && w'.ins.Found? && w'.ins.key == key && w'.ins.height == height
  {
    hide LevelOk, Gap;
    var prev: seq<nat> := [];
    while |prev| < kMaxHeight
      invariant |prev| <= kMaxHeight
      invariant forall l :: 0 <= l < |prev| && l < w.m.maxHeight ==> Gap(w.m, w.levels[l], l, prev[l], key)
      invariant forall l :: w.m.maxHeight <= l < |prev| ==> prev[l] == 0
    {
      var l, p := |prev|, 0;
      if l < w.m.maxHeight {
        assert LevelOk(w.m.nodes, w.levels[l], l);
        assert forall x :: x in w.levels[l] ==> x in w.levels[0];
        p := GapExists(w.m, w.levels[l], l, key);
      }
      prev := prev + [p];
    }
    w' := w.(ins := Found(key, height, prev));
    assert Gaps(w.m, w.levels, prev, 0, w.m.maxHeight, key);
  }

  /** The writes and allocations an insertion has before it. */
  function StepsLeft(ins: Inserter): nat {
    match ins
    case Idle => 0
    case Found(_, height, _) => 2 + 2 * height
    case Raised(_, height, _) => 1 + 2 * height
    case Linking(_, height, _, _, i, prepared) => if i < height then 2 * (height - i) - (if prepared then 1 else 0) else 0
  }

  /** The insertion is over: node `x` has its key, and is on its levels and no other. */
  ghost predicate Done(w: World, x: nat, key: InternalKey, height: nat) {
    && w.ins.Idle? && |w.levels| == kMaxHeight && x < |w.m.nodes| && w.m.nodes[x].key == key
    && forall l :: 0 <= l < kMaxHeight ==> (x in w.levels[l] <==> l < height)
  }

  ghost predicate SameInsert(a: Inserter, b: Inserter) {
    && !a.Idle? && !b.Idle? && a.key == b.key && a.height == b.height
    && (a.Linking? ==> b.Linking? && b.x == a.x)
  }

  /** Whatever readers do, an insertion that has begun can take its next step, and gets
      nearer to its end with it. */
  lemma InserterCanMove(w: World) returns (w': World)
    requires WorldInv(w) && !w.ins.Idle?
    ensures WorldStep(w, w') && WorldInv(w') && w'.readers == w.readers && StepsLeft(w'.ins) < StepsLeft(w.ins)
    ensures SameInsert(w.ins, w'.ins) || (w.ins.Linking? && Done(w', w.ins.x, w.ins.key, w.ins.height))
  {
    hide ListInv, Gaps, SetLink, Inserted, ReadersOk;
    match w.ins {
    case Found(key, height, prev) =>
      w' := w.(m := w.m.(maxHeight := if height > w.m.maxHeight then height else w.m.maxHeight), ins := Raised(key, height, prev));
    case Raised(key, height, prev) =>
      w' := w.(m := w.m.(nodes := w.m.nodes + [Node(key, Nulls(height))]), ins := Linking(key, height, prev, |w.m.nodes|, 0, false));
    case Linking(key, height, prev, x, i, prepared) =>
      AtLink(w);
      if !prepared {
        w' := w.(m := SetLink(w.m, x, i, w.m.nodes[prev[i]].next[i]), ins := w.ins.(prepared := true));
      } else {
        var at := IndexOf(w.levels[i], prev[i]);
        w' := AfterPublish(w, at);
        assert PublishLink(w, w');
        OnItsLevels(w, at);
      }
    }
    InserterStepInv(w, w');
  }

  lemma AtLink(w: World)
    requires WorldInv(w) && w.ins.Linking?
    ensures LinkReady(w) && w.ins.i < |w.levels| && (w.ins.prev[w.ins.i] == 0 || w.ins.prev[w.ins.i] in w.levels[w.ins.i])
  {
    hide ListInv;
    assert Gap(w.m, w.levels[w.ins.i], w.ins.i, w.ins.prev[w.ins.i], w.ins.key);
  }

  lemma OnItsLevels(w: World, at: nat)
    requires WorldInv(w) && LinkReady(w) && w.ins.i < |w.levels| && at <= |w.levels[w.ins.i]|
    ensures AfterPublish(w, at).ins.Idle? ==> Done(AfterPublish(w, at), w.ins.x, w.ins.key, w.ins.height)
  {
    hide ListInv, Gaps, Inserted;
    InsertedMembers(w.levels[w.ins.i], at, w.ins.x, w.ins.x);
  }

  /** One step follows another from the first world on. */
  ghost predicate IsRun(run: seq<World>) {
    forall i, j :: 0 <= i < j < |run| && j == i + 1 ==> WorldStep(run[i], run[j])
  }

  /** No insertion is ever stuck: from any point of it some run ends with its key in the
      list, at the height chosen for it. */
  lemma {:induction false} InsertionEnds(w: World) returns (run: seq<World>, x: nat)
    requires WorldInv(w) && !w.ins.Idle?
    ensures run != [] && run[0] == w && IsRun(run)
    ensures Done(run[|run| - 1], x, w.ins.key, w.ins.height) && run[|run| - 1].readers == w.readers
    decreases StepsLeft(w.ins)
  {
    hide WorldStep, WorldInv, Done, StepsLeft;
    var w' := InserterCanMove(w);
    if SameInsert(w.ins, w'.ins) {
      var more;
      more, x := InsertionEnds(w');
      run := [w] + more;
    } else {
      run, x := [w, w'], w.ins.x;
    }
  }
}
