/** The text of a KEYS reply: numbered lines, one per live key, within a fixed budget. */
module Listing {
  import opened Common
  import opened Dictionary
  import opened Decimal
  import opened Store

  const NEWLINE: byte := 10

  /** "n) " in front of a key. */
  function Number(n: nat): Bytes {
    NatText(n) + [41, 32]
  }

  function Line(n: nat, k: Key): Bytes {
    Number(n) + k + [NEWLINE]
  }

  /** Lines 1, 2, 3 and so on of the keys in order. */
  function Lines(order: seq<Key>): Bytes {
    if order == [] then [] else Lines(order[..|order| - 1]) + Line(|order|, order[|order| - 1])
  }

  /** What is sent: the lines without the newline that ends the last one. */
  function Text(order: seq<Key>): Bytes {
    var t := Lines(order);
    if t == [] then [] else t[..|t| - 1]
  }

  function SumLengths(order: seq<Key>): nat {
    if order == [] then 0 else SumLengths(order[..|order| - 1]) + |order[|order| - 1]|
  }

  lemma LinesSnoc(order: seq<Key>, k: Key)
    ensures Lines(order + [k]) == Lines(order) + Line(|order| + 1, k)
  {
    assert (order + [k])[..|order|] == order;
  }

  lemma {:induction false} LinesLength(order: seq<Key>)
    ensures |Lines(order)| == Numbering(|order|) + SumLengths(order)
  {
    if order != [] {
      LinesLength(order[..|order| - 1]);
    }
  }

  // ---------- What a client reads ----------

  /** Behind the entries before it, an entry is its number, a parenthesis, a blank and its key; a
      newline ends it, except for the last one, where the text ends. */
  ghost predicate EntryRead(text: Bytes, order: seq<Key>, i: nat)
    requires i < |order|
  {
    var number := NatText(i + 1);
    var at := Numbering(i) + SumLengths(order[..i]);
    var key := at + |number| + 2;
    var end := key + |order[i]|;
    && end <= |text|
    && text[at..at + |number|] == number && text[at + |number|..key] == [41, 32] && text[key..end] == order[i]
    && if i + 1 < |order| then end < |text| && text[end] == NEWLINE else end == |text|
  }

  /** The text is the numbered list of the keys, entry by entry and byte by byte. */
  ghost predicate Enumerates(text: Bytes, order: seq<Key>) {
    (order == [] ==> text == []) && forall i :: 0 <= i < |order| ==> EntryRead(text, order, i)
  }

  lemma {:induction false} LinesPrefix(order: seq<Key>, i: nat)
    requires i <= |order|
    ensures Lines(order[..i]) <= Lines(order)
    decreases order
  {
    if i == |order| {
      assert order[..i] == order;
    } else {
      var l := order[..|order| - 1];
      LinesPrefix(l, i);
      assert l[..i] == order[..i];
    }
  }

  lemma LineRead(order: seq<Key>, i: nat)
    requires i < |order|
    ensures var at := Numbering(i) + SumLengths(order[..i]); var line := Line(i + 1, order[i]);
            at + |line| <= |Lines(order)| && Lines(order)[at..at + |line|] == line
            && (i + 1 == |order| <==> at + |line| == |Lines(order)|)
  {
    hide Lines;
    LinesPrefix(order, i + 1);
    assert order[..i + 1] == order[..i] + [order[i]];
    LinesSnoc(order[..i], order[i]);
    LinesLength(order[..i]);
    if i + 1 == |order| {
      assert order[..i + 1] == order;
    } else {
      LinesPrefix(order, i + 2);
      assert order[..i + 2] == order[..i + 1] + [order[i + 1]];
      LinesSnoc(order[..i + 1], order[i + 1]);
    }
  }

  /** The text of a listing enumerates its keys. */
  lemma TextEnumerates(order: seq<Key>)
    ensures Enumerates(Text(order), order)
  {
    forall i | 0 <= i < |order| ensures EntryRead(Text(order), order, i) {
      TextRead(order, i);
    }
  }

  lemma TextRead(order: seq<Key>, i: nat)
    requires i < |order|
    ensures EntryRead(Text(order), order, i)
  {
    hide Lines, NatText, Numbering, SumLengths;
    LineRead(order, i);
    var number, lines := NatText(i + 1), Lines(order);
    var at := Numbering(i) + SumLengths(order[..i]);
    LineParts(lines, at, number, [41, 32], order[i], NEWLINE);
    var end := at + |number| + 2 + |order[i]|;
    assert Text(order) == lines[..|lines| - 1];
    SameStart(lines, |lines| - 1, at, at + |number|);
    SameStart(lines, |lines| - 1, at + |number|, at + |number| + 2);
    SameStart(lines, |lines| - 1, at + |number| + 2, end);
  }

  lemma LineParts(s: Bytes, at: nat, a: Bytes, b: Bytes, c: Bytes, last: byte)
    requires var line := a + b + c + [last]; at + |line| <= |s| && s[at..at + |line|] == line
    ensures var i := at + |a|; var j := i + |b|; var end := j + |c|;
            s[at..i] == a && s[i..j] == b && s[j..end] == c && s[end] == last
  {
    var i := at + |a|;
    var j := i + |b|;
    var line := s[at..j + |c| + 1];
    assert forall k :: 0 <= k < |line| ==> line[k] == s[at + k];
    var x, y, z := s[at..i], s[i..j], s[j..j + |c|];
    assert forall k :: 0 <= k < |x| ==> x[k] == s[at + k] == a[k];
    assert forall k :: 0 <= k < |y| ==> y[k] == s[i + k] == line[|a| + k] == b[k];
    assert forall k :: 0 <= k < |z| ==> z[k] == s[j + k] == line[|a| + |b| + k] == c[k];
    assert x == a && y == b && z == c;
  }

  lemma SameStart(s: Bytes, n: nat, i: nat, j: nat)
    requires i <= j <= n <= |s|
    ensures s[..n][i..j] == s[i..j]
  {
    var start, part := s[..n], s[i..j];
    assert forall k :: 0 <= k < |part| ==> part[k] == s[i + k] == start[i + k];
  }

  // ---------- The budget does not depend on the order ----------

  ghost predicate Lists(order: seq<Key>, keys: set<Key>) {
    && (forall i, j :: 0 <= i < j < |order| ==> order[i] != order[j])
    && (forall k :: k in order <==> k in keys)
  }

  lemma {:induction false} TotalLengthRemove(keys: set<Key>, k: Key)
    requires k in keys
    ensures TotalLength(keys) == |k| + TotalLength(keys - {k})
    decreases |keys|
  {
    var x :| x in keys && TotalLength(keys) == |x| + TotalLength(keys - {x});
    if x != k {
      TotalLengthRemove(keys - {x}, k);
      TotalLengthRemove(keys - {k}, x);
      assert keys - {x} - {k} == keys - {k} - {x};
    }
  }

  lemma {:induction false} ListsLength(order: seq<Key>, keys: set<Key>)
    requires Lists(order, keys)
    ensures |order| == |keys| && SumLengths(order) == TotalLength(keys)
    decreases order
  {
    if order == [] {
      assert keys == {};
    } else {
      var l, k := order[..|order| - 1], order[|order| - 1];
      assert order == l + [k];
      assert Lists(l, keys - {k});
      ListsLength(l, keys - {k});
      TotalLengthRemove(keys, k);
    }
  }

  /** A complete listing fits the budget exactly when its keys do, in whatever order. */
  lemma FitsByLength(order: seq<Key>, keys: set<Key>)
    requires Lists(order, keys)
    ensures ListingFits(keys) <==> |Lines(order)| <= MAX_LISTING
  {
    LinesLength(order);
    ListsLength(order, keys);
  }

  lemma {:induction false} NumberingGrows(a: nat, b: nat)
    requires a <= b
    ensures Numbering(a) <= Numbering(b)
  {
    if a < b {
      NumberingGrows(a, b - 1);
    }
  }

  lemma {:induction false} TotalLengthGrows(a: set<Key>, b: set<Key>)
    requires a <= b
    ensures TotalLength(a) <= TotalLength(b) && |a| <= |b|
    decreases |a|
  {
    if a != {} {
      var k :| k in a;
      TotalLengthRemove(a, k);
      TotalLengthRemove(b, k);
      TotalLengthGrows(a - {k}, b - {k});
      assert |a| == |a - {k}| + 1 && |b| == |b - {k}| + 1;
    }
  }

  /** When the lines of some keys alone break the budget, no listing that includes them fits. */
  lemma TooLong(order: seq<Key>, some: set<Key>, keys: set<Key>)
    requires Lists(order, some) && some <= keys && |Lines(order)| > MAX_LISTING
    ensures !ListingFits(keys)
  {
    FitsByLength(order, some);
    TotalLengthGrows(some, keys);
    NumberingGrows(|some|, |keys|);
  }

  /** Scratch buffer growth: doubled, at most the budget, and at least what the next line needs. */
  function Grow(capacity: nat, needed: nat): nat {
    if needed <= capacity then capacity
    else
      var twice := if 2 * capacity > MAX_LISTING then MAX_LISTING else 2 * capacity;
      if twice < needed then needed else twice
  }
}
