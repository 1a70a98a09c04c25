/** Walking the chain of a bucket while deleting from it. */
module Walks {
  import opened Dictionary
  import opened DictionaryRuns
  import opened DictionaryWalk
  import opened SubTables
  import opened HashTables

  /** Where a walk of bucket p stands: j entries of its chain c are behind it, and those of them that
      are not dead are still linked in front of the rest. */
  ghost predicate WalkAt(t: HashTable, p: nat, c: seq<Node>, m: Chain, all: Table, kept: seq<Node>, j: nat, dead: set<Key>)
    reads t, t.t0, t.t1
  {
    && p < |all| && j <= |m| == |c| && all[p] == m
    && p < |t.Chains()|
    && t.Chains()[p] == kept + c[j..]
    && |kept| == |Keep(m[..j], dead)|
    && AllBuckets(t.Model()) == all[p := Keep(m[..j], dead) + m[j..]]
  }

  /** Opens a walk at the head of a bucket. */
  method Open(t: HashTable, p: nat, ghost dead: set<Key>)
    returns (entry: Node?, ghost c: seq<Node>, ghost m: Chain, ghost all: Table)
    requires t.Valid() && p < t.Total()
    ensures all == AllBuckets(t.Model()) && p < |all| && |all| == t.Total()
    ensures m == all[p] && |c| == |m| && Distinct(m) && entry == NodeAt(c, 0)
    ensures WalkAt(t, p, c, m, all, [], 0, dead)
  {
    hide HashTable.Valid, AsMap;
    t.BucketAt(p);
    BucketDistinct(t.Model(), p);
    c, m, all := t.Chains()[p], AllBuckets(t.Model())[p], AllBuckets(t.Model());
    assert c[0..] == c && m[0..] == m && m[..0] == [] && Keep([], dead) == [];
    assert [] + c == c && Keep([], dead) + m == m;
    entry := t.Head(p);
  }

  lemma BucketDistinct(d: Dict, p: nat)
    requires Dictionary.Valid(d) && p < |AllBuckets(d)|
    ensures Distinct(AllBuckets(d)[p])
  {
    if AllBuckets(d)[p] != [] {
      EntryAt(d, p, 0);
    }
  }

  /** At the end of the walk its bucket holds what was kept, and the others what they held. */
  lemma AtEnd(t: HashTable, p: nat, c: seq<Node>, m: Chain, all: Table, kept: seq<Node>, dead: set<Key>)
    requires WalkAt(t, p, c, m, all, kept, |m|, dead)
    ensures p < |all| && AllBuckets(t.Model()) == all[p := Keep(m, dead)]
  {
    assert m[..|m|] == m && Keep(m, dead) + m[|m|..] == Keep(m, dead);
  }

  lemma OthersSame(t: HashTable, p: nat, c: seq<Node>, m: Chain, all: Table, kept: seq<Node>, j: nat, dead: set<Key>)
    requires WalkAt(t, p, c, m, all, kept, j, dead)
    ensures |AllBuckets(t.Model())| == |all|
    ensures forall q :: 0 <= q < |all| && q != p ==> AllBuckets(t.Model())[q] == all[q]
  {
  }

  /** Taking the entry at the walk's position out of what it walks leaves the rest as it was. */
  lemma WalkSlices(c: seq<Node>, m: Chain, kept: seq<Node>, before: Chain, j: nat)
    requires j < |c| == |m| && |kept| == |before|
    ensures var i := |kept|; var c', m' := kept + c[j..], before + m[j..];
            && c'[i] == c[j] && m'[i] == m[j]
            && NodeAt(c', i + 1) == NodeAt(c, j + 1)
            && Unlinked(c', i) == kept + c[j + 1..]
            && Without(m', i) == before + m[j + 1..]
            && c' == (kept + [c[j]]) + c[j + 1..]
            && m' == (before + [m[j]]) + m[j + 1..]
  {
  }

  /** The entry a walk stands at. */
  lemma AtEntry(t: HashTable, p: nat, c: seq<Node>, m: Chain, all: Table, kept: seq<Node>, j: nat, dead: set<Key>)
    requires t.Valid() && p < t.Total() && WalkAt(t, p, c, m, all, kept, j, dead) && j < |c|
    ensures |m| == |c| && c[j].key == m[j].key && c[j].value == m[j].value && c[j].next == NodeAt(c, j + 1)
    ensures |t.Chains()| == |AllBuckets(t.Model())| == t.Total()
    ensures |kept| < |t.Chains()[p]| == |AllBuckets(t.Model())[p]| && t.Chains()[p][|kept|] == c[j]
    ensures AllBuckets(t.Model())[p][|kept|] == m[j]
  {
    hide HashTable.Valid, AsMap, Keep, HashTable.Chains, AllBuckets;
    t.BucketAt(p);
    WalkSlices(c, m, kept, Keep(m[..j], dead), j);
    assert EntryOf(t.Chains()[p], AllBuckets(t.Model())[p], |kept|);
  }

  /** Passing an entry that is not dead. */
  lemma Pass(t: HashTable, p: nat, c: seq<Node>, m: Chain, all: Table, kept: seq<Node>, j: nat, dead: set<Key>)
    requires WalkAt(t, p, c, m, all, kept, j, dead) && j < |c| && m[j].key !in dead
    ensures WalkAt(t, p, c, m, all, kept + [c[j]], j + 1, dead)
  {
    hide Keep, HashTable.Chains, AllBuckets;
    KeepSnoc(m, j, dead);
    WalkSlices(c, m, kept, Keep(m[..j], dead), j);
  }

  /** Deletes the dead entry the walk stands at; its successor was read before. */
  method Drop(t: HashTable, p: nat, entry: Node, ghost c: seq<Node>, ghost m: Chain, ghost all: Table,
              ghost kept: seq<Node>, ghost j: nat, ghost dead: set<Key>)
    requires t.Valid() && p < t.Total() && WalkAt(t, p, c, m, all, kept, j, dead)
    requires j < |c| && entry == c[j] && m[j].key in dead
    modifies t.repr
    ensures t.Valid() && t.repr == old(t.repr) && t.Total() == old(t.Total()) && t.rehashIndex == old(t.rehashIndex)
    ensures t.Contents() == old(t.Contents()) - {m[j].key}
    ensures WalkAt(t, p, c, m, all, kept, j + 1, dead)
  {
    hide HashTable.Linked, AsMap, Dictionary.Valid, IndexOf, Slot, Keep;
    AtEntry(t, p, c, m, all, kept, j, dead);
    KeepSnoc(m, j, dead);
    WalkSlices(c, m, kept, Keep(m[..j], dead), j);
    EntryAt(t.Model(), p, |kept|);
    DeleteInBucket(t.Model(), entry.key);
    var _ := t.DeleteValue(entry.key);
    t.Sizes();
  }
}
