/** Sequence helpers shared by the approver lookup and the action queue:
    JavaScript's `indexOf`, the insertion order of a `Set`, and the
    `indexOf` + `splice(i, 1)` idiom that removes one element. */
module Seqs {

  /** No element occurs twice. */
  predicate NoDup<T(==)>(s: seq<T>) {
    forall i, j :: 0 <= i < j < |s| ==> s[i] != s[j]
  }

  /** `s.indexOf(x)`: the first position of `x`, or -1 when it is absent. */
  function IndexOf<T(==)>(s: seq<T>, x: T): (r: int)
    ensures -1 <= r < |s|
    ensures r == -1 <==> x !in s
    ensures 0 <= r ==> s[r] == x && x !in s[..r]
    ensures forall k :: 0 <= k < |s| && s[k] == x ==> 0 <= r <= k
  {
    if |s| == 0 then -1
    else if s[0] == x then 0
    else
      var i := IndexOf(s[1..], x);
      if i == -1 then -1
      else
        assert s[1..][..i] == s[1..i + 1];
        i + 1
  }

  /** Looking up an element of `p` in `p + q` finds it where `p` has it. */
  lemma IndexOfPrefix<T>(p: seq<T>, q: seq<T>, x: T)
    requires x in p
    ensures IndexOf(p + q, x) == IndexOf(p, x)
  {
    var r := IndexOf(p, x);
    assert (p + q)[r] == x;
    var r' := IndexOf(p + q, x);
    assert p[r'] == x;
  }

  /** An element absent from `p` is found in `p + q` after the whole of `p`. */
  lemma IndexOfPastPrefix<T>(p: seq<T>, q: seq<T>, x: T)
    requires x !in p && x in q
    ensures IndexOf(p + q, x) == |p| + IndexOf(q, x)
  {
    var r := IndexOf(q, x);
    assert (p + q)[|p| + r] == x;
    var r' := IndexOf(p + q, x);
    assert r' >= |p|;
    assert q[r' - |p|] == x;
  }

  /** `Array.from(new Set(s))`: the elements of `s`, each kept where it first
      occurs. A JavaScript `Set` iterates in insertion order, and inserting an
      element that is already present does not move it. */
  function Dedup<T(==,!new)>(s: seq<T>): (r: seq<T>)
    ensures NoDup(r)
    ensures forall x :: x in r <==> x in s
    ensures |r| <= |s|
  {
    if s == [] then []
    else
      var d := Dedup(s[..|s| - 1]);
      var x := s[|s| - 1];
      assert s == s[..|s| - 1] + [x];
      if x in d then d else d + [x]
  }

  /** The elements of `Dedup(s)` appear in the order of their first
      occurrence in `s`. */
  lemma {:induction false} DedupFirstOccurrence<T(!new)>(s: seq<T>, i: nat, j: nat)
    requires i < j < |Dedup(s)|
    ensures IndexOf(s, Dedup(s)[i]) < IndexOf(s, Dedup(s)[j])
  {
    var p, x := s[..|s| - 1], s[|s| - 1];
    assert s == p + [x];
    var d := Dedup(p);
    var a, b := Dedup(s)[i], Dedup(s)[j];
    if x in d {
      DedupFirstOccurrence(p, i, j);
      IndexOfPrefix(p, [x], a);
      IndexOfPrefix(p, [x], b);
    } else if j < |d| {
      DedupFirstOccurrence(p, i, j);
      IndexOfPrefix(p, [x], a);
      IndexOfPrefix(p, [x], b);
    } else {
      assert a == d[i] && a in p;
      IndexOfPrefix(p, [x], a);
      assert b == x && x !in p;
      IndexOfPastPrefix(p, [x], x);
    }
  }

  /** `r` lists elements of `s` in the order of their first occurrence in `s`. */
  predicate InFirstOccurrenceOrder<T(==)>(s: seq<T>, r: seq<T>) {
    forall i, j :: 0 <= i < j < |r| ==> IndexOf(s, r[i]) < IndexOf(s, r[j])
  }

  /** Two listings of the same elements of `s` in first-occurrence order are
      empty together, and otherwise start with the same element. */
  lemma FirstOccurrenceListingHead<T>(s: seq<T>, a: seq<T>, b: seq<T>)
    requires forall x :: x in a <==> x in b
    requires forall x :: x in a ==> x in s
    requires InFirstOccurrenceOrder(s, a) && InFirstOccurrenceOrder(s, b)
    ensures a == [] <==> b == []
    ensures a != [] ==> a[0] == b[0]
  {
    assert a != [] ==> a[0] in b;
    assert b != [] ==> b[0] in a;
    if a != [] && b != [] {
      FirstOccurrenceListingSameHead(s, a, b);
    }
  }

  /** Each head comes no later in `s` than the other, so they are one element. */
  lemma FirstOccurrenceListingSameHead<T>(s: seq<T>, a: seq<T>, b: seq<T>)
    requires a != [] && b != []
    requires forall x :: x in a <==> x in b
    requires forall x :: x in a ==> x in s
    requires InFirstOccurrenceOrder(s, a) && InFirstOccurrenceOrder(s, b)
    ensures a[0] == b[0]
  {
    assert a[0] in a && a[0] in b;
    assert b[0] in b && b[0] in a;
    var k :| 0 <= k < |a| && a[k] == b[0];
    var m :| 0 <= m < |b| && b[m] == a[0];
    assert IndexOf(s, a[0]) <= IndexOf(s, a[k]);
    assert IndexOf(s, b[0]) <= IndexOf(s, b[m]);
    assert s[IndexOf(s, a[0])] == a[0] && s[IndexOf(s, b[0])] == b[0];
  }

  /** Dropping the head of a duplicate-free listing drops exactly that element
      and keeps the order. */
  lemma DropHead<T>(s: seq<T>, a: seq<T>)
    requires a != [] && NoDup(a) && InFirstOccurrenceOrder(s, a)
    ensures NoDup(a[1..]) && InFirstOccurrenceOrder(s, a[1..])
    ensures forall x :: x in a[1..] <==> x in a && x != a[0]
  {
    assert forall i :: 0 <= i < |a[1..]| ==> a[1..][i] == a[i + 1];
  }

  /** Two duplicate-free listings of the same elements of `s`, both in
      first-occurrence order, are equal. */
  lemma {:induction false} FirstOccurrenceListingUnique<T(!new)>(s: seq<T>, a: seq<T>, b: seq<T>)
    requires NoDup(a) && NoDup(b)
    requires forall x :: x in a <==> x in b
    requires forall x :: x in a ==> x in s
    requires InFirstOccurrenceOrder(s, a) && InFirstOccurrenceOrder(s, b)
    ensures a == b
  {
    FirstOccurrenceListingHead(s, a, b);
    if a != [] {
      var a', b' := a[1..], b[1..];
      DropHead(s, a);
      DropHead(s, b);
      FirstOccurrenceListingUnique(s, a', b');
      assert a == [a[0]] + a' && b == [b[0]] + b';
    }
  }

  /** `Dedup` is the only duplicate-free listing of the elements of `s` in
      first-occurrence order. */
  lemma DedupUnique<T(!new)>(s: seq<T>, r: seq<T>)
    requires NoDup(r) && (forall x :: x in r <==> x in s)
    requires InFirstOccurrenceOrder(s, r)
    ensures r == Dedup(s)
  {
    forall i, j | 0 <= i < j < |Dedup(s)| ensures IndexOf(s, Dedup(s)[i]) < IndexOf(s, Dedup(s)[j]) {
      DedupFirstOccurrence(s, i, j);
    }
    FirstOccurrenceListingUnique(s, r, Dedup(s));
  }

  /** A sequence without duplicates is its own `Dedup`. */
  lemma {:induction false} DedupOfDistinct<T(!new)>(s: seq<T>)
    requires NoDup(s)
    ensures Dedup(s) == s
  {
    if s != [] {
      var p := s[..|s| - 1];
      assert NoDup(p);
      DedupOfDistinct(p);
      assert s[|s| - 1] !in p;
      assert s == p + [s[|s| - 1]];
    }
  }

  /** Every element of `Dedup(a + b)` that comes from `a` precedes every
      element that occurs only in `b`. */
  lemma DedupPrefixFirst<T(!new)>(a: seq<T>, b: seq<T>, i: nat, j: nat)
    requires i < j < |Dedup(a + b)|
    requires Dedup(a + b)[j] in a
    ensures Dedup(a + b)[i] in a
  {
    var r := Dedup(a + b);
    DedupFirstOccurrence(a + b, i, j);
    IndexOfPrefix(a, b, r[j]);
    var m := IndexOf(a + b, r[i]);
    assert (a + b)[m] == r[i] && m < |a|;
    assert a[m] == r[i];
  }

  /** The queue callback `i = q.indexOf(x); if (i !== -1) q.splice(i, 1)`:
      removes the first occurrence of `x`, and nothing when there is none. */
  function RemoveKey<T(==,!new)>(q: seq<T>, x: T): (r: seq<T>)
    ensures x !in q ==> r == q
    ensures x in q ==> |r| == |q| - 1 && multiset(r) == multiset(q) - multiset{x}
    ensures NoDup(q) ==> NoDup(r) && forall y :: y in r <==> y in q && y != x
  {
    var i := IndexOf(q, x);
    if i == -1 then q
    else
      DeleteAt(q, i);
      q[..i] + q[i + 1..]
  }

  /** Deleting position `i` removes one copy of `q[i]` and keeps the rest. */
  lemma DeleteAt<T>(q: seq<T>, i: nat)
    requires i < |q|
    ensures multiset(q[..i] + q[i + 1..]) == multiset(q) - multiset{q[i]}
    ensures NoDup(q) ==> NoDup(q[..i] + q[i + 1..])
    ensures NoDup(q) ==> forall y :: y in q[..i] + q[i + 1..] <==> y in q && y != q[i]
  {
    var a, b := q[..i], q[i + 1..];
    assert q == a + [q[i]] + b;
    if NoDup(q) {
      var r := a + b;
      forall m, n | 0 <= m < n < |r| ensures r[m] != r[n] {
        var m', n' := if m < i then m else m + 1, if n < i then n else n + 1;
        assert r[m] == q[m'] && r[n] == q[n'];
      }
    }
  }

  /** Removing a key keeps the other keys in their previous relative order. */
  lemma RemoveKeyKeepsOrder<T(!new)>(q: seq<T>, x: T, i: nat, j: nat)
    requires NoDup(q)
    requires i < j < |RemoveKey(q, x)|
    ensures IndexOf(q, RemoveKey(q, x)[i]) < IndexOf(q, RemoveKey(q, x)[j])
  {
  }
}
