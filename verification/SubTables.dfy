/** One bucket array of the hash table: heads of singly linked chains of nodes. */
module SubTables {
  import opened Common
  import opened Dictionary
  import D = Dictionary

  /** An entry: its key never changes, its value is overwritten and its link relinked in place. */
  class Node {
    const key: Key
    var value: Value
    var next: Node?
    ghost var bucket: nat

    constructor (key: Key, value: Value)
      ensures this.key == key && this.value == value && next == null
    {
      this.key := key;
      this.value := value;
      this.next := null;
    }
  }

  method ComputeHash(key: Key) returns (hash: nat)
    ensures hash == Djb2(key, |key|)
  {
    hash := 5381;
    for i := 0 to |key|
      invariant hash == Djb2(key, i)
    {
      hash := ((hash * 32 + hash) + key[i]) % TWO_64;
    }
  }

  ghost function NodeAt(c: seq<Node>, j: nat): Node? {
    if j < |c| then c[j] else null
  }

  /** The list that starts at head runs through the nodes of c, which are marked as bucket i and
      hold the entries of m. */
  ghost predicate Holds(head: Node?, c: seq<Node>, m: Chain, i: nat)
    reads c
  {
    && |c| == |m|
    && head == NodeAt(c, 0)
    && (forall j :: 0 <= j < |c| ==> c[j].key == m[j].key && c[j].value == m[j].value && c[j].bucket == i)
    && (forall j {:trigger c[j].next} :: 0 <= j < |c| ==> c[j].next == NodeAt(c, j + 1))
  }

  ghost predicate Within(c: seq<Node>, nodes: set<Node>) {
    forall j :: 0 <= j < |c| ==> c[j] in nodes
  }

  lemma NoElements()
    ensures Elements([]) == {}
  {
  }

  lemma ElementsSnoc(c: seq<Node>, k: nat)
    requires k < |c|
    ensures Elements(c[..k + 1]) == Elements(c[..k]) + {c[k]}
  {
    assert c[..k + 1] == c[..k] + [c[k]];
  }

  lemma MigrateStep(m: Chain, t: Table)
    requires |t| > 0
    ensures m == [] ==> Migrate(m, t) == t
    ensures m != [] ==> |D.Push(t, m[0])| == |t| && Migrate(m, t) == Migrate(m[1..], D.Push(t, m[0]))
  {
  }

  ghost function Elements(c: seq<Node>): set<Node> {
    set n | n in c
  }

  /** A null-terminated list meets no node twice. */
  lemma {:induction false} NoRepeats(head: Node?, c: seq<Node>, m: Chain, i: nat, a: nat, b: nat)
    requires Holds(head, c, m, i) && a < b < |c|
    ensures c[a] != c[b]
    decreases |c| - b
  {
    assert c[a].next == NodeAt(c, a + 1) && c[b].next == NodeAt(c, b + 1);
    if b + 1 < |c| {
      NoRepeats(head, c, m, i, a + 1, b + 1);
    }
  }

  lemma HoldsPush(n: Node, c: seq<Node>, m: Chain, i: nat)
    requires Holds(n.next, c, m, i) && n.bucket == i
    ensures Holds(n, [n] + c, [Entry(n.key, n.value)] + m, i)
  {
    var c', m' := [n] + c, [Entry(n.key, n.value)] + m;
    forall j | 0 <= j < |c'|
      ensures c'[j].key == m'[j].key && c'[j].value == m'[j].value && c'[j].next == NodeAt(c', j + 1)
    {
      if j > 0 {
        assert c'[j] == c[j - 1] && c[j - 1].next == NodeAt(c, j);
      }
    }
  }

  lemma HoldsEnds(head: Node?, c: seq<Node>, m: Chain, i: nat)
    requires Holds(head, c, m, i)
    ensures |c| == |m| && head == NodeAt(c, 0)
    ensures c == [] ==> Elements(c) == {}
  {
  }

  lemma HoldsTail(n: Node, c: seq<Node>, m: Chain, i: nat)
    requires Holds(n, c, m, i)
    ensures c != [] && m != [] && c[0] == n && m[0] == Entry(n.key, n.value)
    ensures Holds(n.next, c[1..], m[1..], i)
    ensures n !in c[1..] && n !in Elements(c[1..]) && Elements(c) == {n} + Elements(c[1..])
  {
    assert c == [n] + c[1..];
    forall b | 0 <= b < |c[1..]|
      ensures c[1..][b].next == NodeAt(c[1..], b + 1) && c[1..][b] != n
    {
      assert c[b + 1].next == NodeAt(c, b + 2);
      NoRepeats(n, c, m, i, 0, b + 1);
    }
  }

  ghost function Unlinked(c: seq<Node>, j: nat): seq<Node>
    requires j < |c|
  {
    c[..j] + c[j + 1..]
  }

  lemma AllWithin(chains: seq<seq<Node>>, nodes: set<Node>, i: nat, j: nat)
    requires i < |chains| && j < |chains[i]|
    requires forall a :: 0 <= a < |chains| ==> Within(chains[a], nodes)
    requires forall b :: 0 <= b < |chains[i]| && b != j ==> chains[i][b] != chains[i][j]
    requires forall a :: 0 <= a < |chains| && a != i ==> chains[i][j] !in chains[a]
    ensures var chains' := chains[i := Unlinked(chains[i], j)];
            forall a :: 0 <= a < |chains'| ==> Within(chains'[a], nodes - {chains[i][j]})
    ensures forall n :: n in chains[i] && n != chains[i][j] ==> n in Unlinked(chains[i], j)
  {
  }

  /** Pointing the predecessor of position j past it takes exactly that entry out of the list. */
  lemma HoldsUnlink(head: Node?, c: seq<Node>, m: Chain, i: nat, j: nat)
    requires |c| == |m| && j < |c|
    requires head == if j == 0 then NodeAt(c, 1) else c[0]
    requires forall b :: 0 <= b < |c| && b != j ==> c[b].key == m[b].key && c[b].value == m[b].value && c[b].bucket == i
    requires forall b {:trigger c[b].next} :: 0 <= b < |c| && b != j ==>
               c[b].next == NodeAt(c, if b + 1 == j then b + 2 else b + 1)
    ensures Holds(head, Unlinked(c, j), Without(m, j), i)
  {
    var c', m' := Unlinked(c, j), Without(m, j);
    forall b | 0 <= b < |c'|
      ensures c'[b].key == m'[b].key && c'[b].value == m'[b].value && c'[b].bucket == i
      ensures c'[b].next == NodeAt(c', b + 1)
    {
      var a := if b < j then b else b + 1;
      assert c'[b] == c[a] && m'[b] == m[a];
      assert c[a].next == NodeAt(c, if a + 1 == j then a + 2 else a + 1);
    }
  }

  class SubTable {
    const heads: array<Node?>
    var used: nat
    ghost var chains: seq<seq<Node>>
    ghost var model: Table
    ghost var nodes: set<Node>

    /** The invariant, with the list of bucket r left open while it is being moved. */
    ghost predicate ValidBut(r: int)
      reads this`chains, this`model, this`nodes, heads, nodes
      ensures ValidBut(r) ==> heads.Length == |model| == |chains|
    {
      && heads.Length == |model| == |chains|
      && (forall i :: 0 <= i < |chains| ==> Within(chains[i], nodes))
      && (forall n :: n in nodes ==> n.bucket < |chains| && n in chains[n.bucket])
      && (forall i :: 0 <= i < |chains| && i != r ==> Within(chains[i], nodes) && Holds(heads[i], chains[i], model[i], i))
    }

    ghost predicate Valid()
      reads this`chains, this`model, this`nodes, heads, nodes
      ensures Valid() ==> heads.Length == |model| == |chains|
    {
      ValidBut(-1)
    }

    lemma BucketHolds(i: nat)
      requires Valid() && i < |model|
      ensures Within(chains[i], nodes) && Holds(heads[i], chains[i], model[i], i)
    {
    }

    lemma HeadIsNull(i: nat)
      requires Valid() && i < |model|
      ensures heads[i] == null <==> model[i] == []
    {
      assert Holds(heads[i], chains[i], model[i], i);
    }

    lemma NoNodes()
      requires Valid() && forall i :: 0 <= i < |model| ==> model[i] == []
      ensures nodes == {}
    {
      if nodes != {} {
        var n :| n in nodes;
        BucketHolds(n.bucket);
        assert false;
      }
    }

    constructor (size: nat)
      ensures Valid() && fresh(heads) && model == Buckets(size) && used == 0 && nodes == {}
    {
      heads := new Node?[size](_ => null);
      used := 0;
      chains := seq(size, _ => []);
      model := Buckets(size);
      nodes := {};
    }

    method Find(i: nat, key: Key) returns (n: Node?)
      requires Valid() && i < heads.Length
      ensures n == null <==> ChainLookup(model[i], key) == None
      ensures n != null ==> n in nodes && n.bucket == i && n.key == key && ChainLookup(model[i], key) == Some(n.value)
      ensures n != null ==> IndexOf(model[i], key) < |chains[i]| && chains[i][IndexOf(model[i], key)] == n
    {
      n := heads[i];
      ghost var c, j := chains[i], 0;
      assert Within(c, nodes) && Holds(heads[i], c, model[i], i);
      while n != null
        invariant j <= |c| && n == NodeAt(c, j)
        invariant forall x :: 0 <= x < j ==> model[i][x].key != key
        decreases |c| - j
      {
        if n.key == key {
          return;
        }
        n := n.next;
        j := j + 1;
      }
    }

    /** Gives up the nodes of bucket r, whose list is about to be moved elsewhere. */
    ghost method Detach(r: nat)
      requires Valid() && r < |chains|
      modifies this
      ensures ValidBut(r) && used == old(used)
      ensures chains == old(chains)[r := []] && model == old(model)[r := []]
      ensures nodes == old(nodes) - Elements(old(chains)[r])
    {
      chains := chains[r := []];
      model := model[r := []];
      nodes := nodes - Elements(old(chains)[r]);
      forall a | 0 <= a < |chains| && a != r
        ensures Within(chains[a], nodes) && Holds(heads[a], chains[a], model[a], a)
      {
        assert old(Within(chains[a], nodes) && Holds(heads[a], chains[a], model[a], a));
        assert old(Holds(heads[r], chains[r], model[r], r));
      }
    }

    /** Claims a node for the head of bucket i, where it is about to be linked. */
    ghost method Claim(i: nat, n: Node)
      requires Valid() && i < |chains| && n !in nodes && n.bucket == i
      modifies this`chains, this`model, this`nodes
      ensures model == old(model)[i := [Entry(n.key, n.value)] + old(model)[i]]
      ensures chains == old(chains)[i := [n] + old(chains)[i]]
      ensures nodes == old(nodes) + {n}
      ensures ValidBut(i) && Holds(heads[i], old(chains)[i], old(model)[i], i)
    {
      assert Within(chains[i], nodes) && Holds(heads[i], chains[i], model[i], i);
      chains, model, nodes :=
        chains[i := [n] + chains[i]], model[i := [Entry(n.key, n.value)] + model[i]], nodes + {n};
      forall a | 0 <= a < |chains| && a != i
        ensures Within(chains[a], nodes) && Holds(heads[a], chains[a], model[a], a)
      {
        assert old(Within(chains[a], nodes) && Holds(heads[a], chains[a], model[a], a));
      }
    }

    /** Links a node that is in no chain at the head of bucket i. */
    method Push(i: nat, n: Node)
      requires Valid() && i < heads.Length && n !in nodes
      modifies this, heads, n`next, n`bucket
      ensures Valid()
      ensures model == old(model)[i := [Entry(n.key, n.value)] + old(model)[i]]
      ensures chains == old(chains)[i := [n] + old(chains)[i]]
      ensures used == old(used) + 1 && nodes == old(nodes) + {n}
    {
      hide ValidBut, Holds;
      BucketHolds(i);
      ghost var c, m := chains[i], model[i];
      n.bucket := i;
      Claim(i, n);
      LinkHead(i, n, c, m);
      used := used + 1;
    }

    /** Points a node at the first node of bucket i, and the bucket at it. */
    method LinkHead(i: nat, n: Node, ghost c: seq<Node>, ghost m: Chain)
      requires ValidBut(i) && i < heads.Length && n in nodes && n.bucket == i
      requires Holds(heads[i], c, m, i) && n !in c
      requires chains[i] == [n] + c && model[i] == [Entry(n.key, n.value)] + m
      modifies heads, n`next
      ensures Valid()
    {
      n.next := heads[i];
      heads[i] := n;
      HoldsPush(n, c, m, i);
      forall a | 0 <= a < |chains| && a != i ensures Holds(heads[a], chains[a], model[a], a) {
        assert old(Within(chains[a], nodes) && Holds(heads[a], chains[a], model[a], a));
      }
    }

    /** Takes over the first node of a list and returns the rest of it. */
    method Take(entry: Node, ghost c: seq<Node>, ghost m: Chain, ghost i: nat) returns (next: Node?)
      requires Valid() && heads.Length > 0
      requires Holds(entry, c, m, i) && nodes !! Elements(c)
      modifies this, heads, entry`next, entry`bucket
      ensures Valid()
      ensures c != [] && m != [] && Holds(next, c[1..], m[1..], i)
      ensures nodes !! Elements(c[1..])
      ensures model == D.Push(old(model), m[0])
      ensures nodes == old(nodes) + {entry} && used == old(used) + 1
    {
      hide ValidBut, Djb2, Fold, Elements, Holds;
      next := entry.next;
      HoldsTail(entry, c, m, i);
      var h := ComputeHash(entry.key);
      Push(Fold(h, heads.Length), entry);
    }

    /** Takes over every node of a list that starts at first, one by one, without copying any. */
    method Absorb(first: Node?, ghost c: seq<Node>, ghost m: Chain, ghost i: nat) returns (moved: nat)
      requires Valid() && heads.Length > 0
      requires Holds(first, c, m, i) && nodes !! Elements(c)
      modifies this, heads, c`next, c`bucket
      ensures Valid() && heads.Length > 0
      ensures model == Migrate(m, old(model))
      ensures nodes == old(nodes) + Elements(c) && used == old(used) + moved && moved == |m|
    {
      hide ValidBut, Slot, Elements, Holds, Migrate, D.Push;
      HoldsEnds(first, c, m, i);
      assert c[0..] == c && m[0..] == m && c[..0] == [];
      NoElements();
      moved := 0;
      var entry := first;
      ghost var k := 0;
      while entry != null
        invariant k <= |c| && |c| == |m| && moved == k && used == old(used) + k
        invariant Valid() && |model| == |old(model)|
        invariant Holds(entry, c[k..], m[k..], i) && nodes !! Elements(c[k..])
        invariant nodes == old(nodes) + Elements(c[..k])
        invariant Migrate(m[k..], model) == Migrate(m, old(model))
        decreases |c| - k
      {
        HoldsEnds(entry, c[k..], m[k..], i);
        MigrateStep(m[k..], model);
        ElementsSnoc(c, k);
        entry := Take(entry, c[k..], m[k..], i);
        moved := moved + 1;
        assert c[k..][1..] == c[k + 1..] && m[k..][1..] == m[k + 1..];
        k := k + 1;
      }
      HoldsEnds(entry, c[k..], m[k..], i);
      assert k == |c| && c[..k] == c;
      MigrateStep(m[k..], model);
    }

    /** Empties bucket r once its nodes have moved. */
    method Drained(r: nat, moved: nat)
      requires ValidBut(r) && r < |chains| && chains[r] == [] && model[r] == [] && moved <= used
      modifies this`used, heads
      ensures Valid() && used == old(used) - moved
    {
      used := used - moved;
      heads[r] := null;
    }

    /** Relinks every node of bucket r into another sub-table, one by one, without copying any. */
    method MoveBucketTo(r: nat, dst: SubTable)
      requires Valid() && r < heads.Length && |model[r]| <= used
      requires dst != this && dst.heads != heads && dst.nodes !! nodes
      requires dst.Valid() && dst.heads.Length > 0
      modifies this, heads, nodes`next, nodes`bucket, dst, dst.heads
      ensures Valid() && dst.Valid() && dst.nodes !! nodes
      ensures |dst.model| == |old(dst.model)| > 0 && dst.model == Migrate(old(model)[r], old(dst.model))
      ensures model == old(model)[r := []]
      ensures used == old(used) - |old(model)[r]| && dst.used == old(dst.used) + |old(model)[r]|
      ensures nodes + dst.nodes == old(nodes) + old(dst.nodes)
    {
      hide ValidBut, Holds, Migrate;
      ghost var c, m := chains[r], model[r];
      BucketHolds(r);
      Detach(r);
      var moved := dst.Absorb(heads[r], c, m, r);
      Drained(r, moved);
    }

    /** Overwrites the value of the node at position j of bucket i, in place. */
    method Overwrite(n: Node, v: Value, ghost i: nat, ghost j: nat)
      requires Valid() && i < |model| && j < |model[i]|
      requires j < |chains[i]| && chains[i][j] == n
      modifies this, n`value
      ensures Valid() && nodes == old(nodes) && used == old(used) && chains == old(chains)
      ensures model == old(model)[i := old(model)[i][j := Entry(n.key, v)]]
    {
      ghost var c := chains[i];
      assert Within(c, nodes) && Holds(heads[i], c, model[i], i);
      forall b | 0 <= b < |c| && b != j ensures c[b] != n {
        NoRepeats(heads[i], c, model[i], i, if b < j then b else j, if b < j then j else b);
      }
      n.value := v;
      model := model[i := model[i][j := Entry(n.key, v)]];
      assert Holds(heads[i], c, model[i], i);
      forall a | 0 <= a < |chains| && a != i ensures Holds(heads[a], chains[a], model[a], a) {
        assert old(Within(chains[a], nodes) && Holds(heads[a], chains[a], model[a], a));
      }
    }

    /** Unlinks the entry of a key from bucket i, if it is there. */
    method Remove(i: nat, key: Key) returns (ok: bool)
      requires Valid() && i < heads.Length && (Has(model[i], key) ==> used > 0)
      modifies this, heads, nodes`next
      ensures Valid() && ok == Has(old(model)[i], key)
      ensures !ok ==> unchanged(this)
      ensures ok ==>
                var j := IndexOf(old(model)[i], key);
                && j < |old(chains)[i]|
                && model == old(model)[i := Without(old(model)[i], j)]
                && chains == old(chains)[i := Unlinked(old(chains)[i], j)]
                && used == old(used) - 1
                && nodes == old(nodes) - {old(chains)[i][j]}
    {
      ghost var c, m, j := chains[i], model[i], 0;
      assert Within(c, nodes) && Holds(heads[i], c, m, i);
      var current, prev: Node? := heads[i], null;
      while current != null
        invariant j <= |c| && current == NodeAt(c, j)
        invariant prev == if j == 0 then null else c[j - 1]
        invariant forall x :: 0 <= x < j ==> m[x].key != key
        decreases |c| - j
      {
        if current.key == key {
          Unlink(i, prev, current, j);
          return true;
        }
        prev := current;
        current := current.next;
        j := j + 1;
      }
      return false;
    }

    /** Forgets the node at position j of bucket i, which is about to be unlinked. */
    ghost method Forget(i: nat, j: nat)
      requires Valid() && i < |chains| && j < |chains[i]|
      modifies this`chains, this`model, this`nodes
      ensures j < |old(model)[i]| && model == old(model)[i := Without(old(model)[i], j)]
      ensures chains == old(chains)[i := Unlinked(old(chains)[i], j)]
      ensures nodes == old(nodes) - {old(chains)[i][j]}
      ensures ValidBut(i) && Holds(heads[i], old(chains)[i], old(model)[i], i)
    {
      var c, m := chains[i], model[i];
      assert Within(c, nodes) && Holds(heads[i], c, m, i);
      forall b | 0 <= b < |c| && b != j ensures c[b] != c[j] {
        NoRepeats(heads[i], c, m, i, if b < j then b else j, if b < j then j else b);
      }
      forall a | 0 <= a < |chains| && a != i ensures c[j] !in chains[a] {
        assert Holds(heads[a], chains[a], model[a], a);
      }
      AllWithin(chains, nodes, i, j);
      chains, model, nodes := chains[i := Unlinked(c, j)], model[i := Without(m, j)], nodes - {c[j]};
      forall a | 0 <= a < |chains| && a != i ensures Holds(heads[a], chains[a], model[a], a) {
        assert old(Holds(heads[a], chains[a], model[a], a));
      }
    }

    /** Points the predecessor of a node, or the head of its bucket, past it. */
    method Bypass(i: nat, prev: Node?, current: Node, ghost c: seq<Node>, ghost m: Chain, ghost j: nat)
      requires ValidBut(i) && i < heads.Length && Holds(heads[i], c, m, i)
      requires j < |c| && j < |m| && chains[i] == Unlinked(c, j) && model[i] == Without(m, j)
      requires current == c[j] && prev == if j == 0 then null else c[j - 1]
      modifies heads, nodes`next
      ensures Valid()
    {
      assert current.next == NodeAt(c, j + 1);
      forall b, k | 0 <= b < |c| && 0 <= k < |c| && b != k ensures c[b] != c[k] {
        NoRepeats(heads[i], c, m, i, if b < k then b else k, if b < k then k else b);
      }
      if prev != null {
        assert prev == chains[i][j - 1] && prev.bucket == i;
        prev.next := current.next;
      } else {
        heads[i] := current.next;
      }
      HoldsUnlink(heads[i], c, m, i, j);
      forall a | 0 <= a < |chains| && a != i ensures Holds(heads[a], chains[a], model[a], a) {
        assert old(Within(chains[a], nodes) && Holds(heads[a], chains[a], model[a], a));
      }
    }

    /** Takes a node out of bucket i, given its predecessor. */
    method Unlink(i: nat, prev: Node?, current: Node, ghost j: nat)
      requires Valid() && i < heads.Length && used > 0
      requires j < |chains[i]| && current == chains[i][j]
      requires prev == if j == 0 then null else chains[i][j - 1]
      modifies this, heads, nodes`next
      ensures Valid() && used == old(used) - 1
      ensures j < |old(model)[i]| && model == old(model)[i := Without(old(model)[i], j)]
      ensures chains == old(chains)[i := Unlinked(old(chains)[i], j)]
      ensures nodes == old(nodes) - {current}
    {
      hide ValidBut, Holds;
      ghost var c, m := chains[i], model[i];
      Forget(i, j);
      Bypass(i, prev, current, c, m, j);
      used := used - 1;
    }
  }
}
