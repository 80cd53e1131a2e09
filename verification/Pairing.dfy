/** Pairing the rules of two revisions by what they say rather than where they sit.

A revision is the list of its rules' content keys in file order; rule number `n`
is at position `n - 1`. */
module Pairing {
  import opened Arith
  import opened Sorting

  datatype Partner = Paired(number: nat) | Alone

  /** The numbers of the rules that say `key`, in file order. */
  function Occurrences<K(==)>(keys: seq<K>, key: K): seq<nat> {
    if keys == [] then []
    else if keys[|keys| - 1] == key then Occurrences(keys[..|keys| - 1], key) + [|keys|]
    else Occurrences(keys[..|keys| - 1], key)
  }

  /** How many earlier rules say the same as rule number `n`. */
  function Rank<K(==)>(keys: seq<K>, n: nat): nat
    requires 1 <= n <= |keys|
  {
    |Occurrences(keys[..n - 1], keys[n - 1])|
  }

  /** The head rule that base rule `n` is paired with: the one with its key and its rank. */
  function PartnerOf<K(==)>(base: seq<K>, head: seq<K>, n: nat): Partner
    requires 1 <= n <= |base|
  {
    var there := Occurrences(head, base[n - 1]);
    if Rank(base, n) < |there| then Paired(there[Rank(base, n)]) else Alone
  }

  predicate IsPair<K(==)>(base: seq<K>, head: seq<K>, b: nat, h: nat) {
    1 <= b <= |base| && PartnerOf(base, head, b) == Paired(h)
  }

  /** Base rule number `n` is in no pair. */
  predicate IsRemoved<K(==)>(base: seq<K>, head: seq<K>, n: nat) {
    1 <= n <= |base| && PartnerOf(base, head, n).Alone?
  }

  /** Head rule number `n` has no base rule of its key and rank. */
  predicate IsAdded<K(==)>(base: seq<K>, head: seq<K>, n: nat) {
    1 <= n <= |head| && Rank(head, n) >= |Occurrences(base, head[n - 1])|
  }

  function PairedUpTo<K(==)>(base: seq<K>, head: seq<K>, n: nat): seq<(nat, nat)>
    requires n <= |base|
  {
    if n == 0 then []
    else match PartnerOf(base, head, n)
      case Paired(h) => PairedUpTo(base, head, n - 1) + [(n, h)]
      case Alone => PairedUpTo(base, head, n - 1)
  }

  function RemovedUpTo<K(==)>(base: seq<K>, head: seq<K>, n: nat): seq<nat>
    requires n <= |base|
  {
    if n == 0 then []
    else match PartnerOf(base, head, n)
      case Paired(_) => RemovedUpTo(base, head, n - 1)
      case Alone => RemovedUpTo(base, head, n - 1) + [n]
  }

  // ------------------------------------------------------------ occurrences

  /** A number listed under a key belongs to a rule with that key and that rank. */
  lemma {:induction false} OccurrenceAt<K>(keys: seq<K>, key: K, i: nat)
    requires i < |Occurrences(keys, key)|
    ensures var n := Occurrences(keys, key)[i];
      1 <= n <= |keys| && keys[n - 1] == key && Rank(keys, n) == i
  {
    var front := keys[..|keys| - 1];
    if i < |Occurrences(front, key)| {
      OccurrenceAt(front, key, i);
      var n := Occurrences(front, key)[i];
      assert front[..n - 1] == keys[..n - 1];
    }
  }

  /** Every rule is listed under its own key at its own rank. */
  lemma {:induction false} OccurrenceOf<K>(keys: seq<K>, n: nat)
    requires 1 <= n <= |keys|
    ensures var there := Occurrences(keys, keys[n - 1]);
      Rank(keys, n) < |there| && there[Rank(keys, n)] == n
  {
    var front := keys[..|keys| - 1];
    if n < |keys| {
      OccurrenceOf(front, n);
      assert front[..n - 1] == keys[..n - 1];
    }
  }

  /** Numbers under one key are in file order. */
  lemma {:induction false} OccurrencesIncrease<K>(keys: seq<K>, key: K, i: nat, j: nat)
    requires i < j < |Occurrences(keys, key)|
    ensures Occurrences(keys, key)[i] < Occurrences(keys, key)[j]
  {
    var front := keys[..|keys| - 1];
    if j < |Occurrences(front, key)| {
      OccurrencesIncrease(front, key, i, j);
    } else {
      OccurrenceAt(front, key, i);
    }
  }

  // ------------------------------------------------------------ the pairing

  /** A pair has equal keys and equal ranks, and that determines it from either side. */
  lemma PairIs<K>(base: seq<K>, head: seq<K>, b: nat, h: nat)
    ensures IsPair(base, head, b, h) <==>
      1 <= b <= |base| && 1 <= h <= |head| && base[b - 1] == head[h - 1] && Rank(base, b) == Rank(head, h)
  {
    if 1 <= b <= |base| {
      var there := Occurrences(head, base[b - 1]);
      if Rank(base, b) < |there| { OccurrenceAt(head, base[b - 1], Rank(base, b)); }
      if 1 <= h <= |head| && base[b - 1] == head[h - 1] { OccurrenceOf(head, h); }
    }
  }

  /** A head rule is added exactly when no base rule is paired with it. */
  lemma AddedIffUnpaired<K>(base: seq<K>, head: seq<K>, h: nat)
    requires 1 <= h <= |head|
    ensures IsAdded(base, head, h) <==> forall b: nat :: !IsPair(base, head, b, h)
  {
    var there := Occurrences(base, head[h - 1]);
    if Rank(head, h) < |there| {
      OccurrenceAt(base, head[h - 1], Rank(head, h));
      PairIs(base, head, there[Rank(head, h)], h);
      assert IsPair(base, head, there[Rank(head, h)], h);
    }
    if b: nat :| IsPair(base, head, b, h) {
      PairIs(base, head, b, h);
      OccurrenceOf(base, b);
    }
  }

  /** No rule is in two pairs. */
  lemma PairsAreOneToOne<K>(base: seq<K>, head: seq<K>, b: nat, c: nat, h: nat, g: nat)
    requires IsPair(base, head, b, h) && IsPair(base, head, c, g)
    ensures b == c <==> h == g
  {
    PairIs(base, head, b, h);
    PairIs(base, head, c, g);
    OccurrenceOf(base, b);
    OccurrenceOf(base, c);
  }

  /** Equal rules pair in file order. */
  lemma PairsKeepOrder<K>(base: seq<K>, head: seq<K>, b: nat, c: nat, h: nat, g: nat)
    requires IsPair(base, head, b, h) && IsPair(base, head, c, g) && base[b - 1] == base[c - 1]
    ensures b < c <==> h < g
  {
    PairIs(base, head, b, h);
    PairIs(base, head, c, g);
    RankKeepsOrder(base, b, c);
    RankKeepsOrder(head, h, g);
  }

  lemma RankKeepsOrder<K>(keys: seq<K>, a: nat, b: nat)
    requires 1 <= a <= |keys| && 1 <= b <= |keys| && keys[a - 1] == keys[b - 1]
    ensures a < b <==> Rank(keys, a) < Rank(keys, b)
  {
    OccurrenceOf(keys, a);
    OccurrenceOf(keys, b);
    var i, j := Rank(keys, a), Rank(keys, b);
    if i < j { OccurrencesIncrease(keys, keys[a - 1], i, j); }
    if j < i { OccurrencesIncrease(keys, keys[a - 1], j, i); }
  }

  /** The matching is maximal: no key has an unpaired rule on both sides. */
  lemma PairingIsMaximal<K>(base: seq<K>, head: seq<K>, b: nat, h: nat)
    requires IsRemoved(base, head, b) && IsAdded(base, head, h)
    ensures base[b - 1] != head[h - 1]
  {
    OccurrenceOf(base, b);
    OccurrenceOf(head, h);
  }

  /** A revision paired with itself: every rule is its own partner. */
  lemma SelfPairing<K>(keys: seq<K>, n: nat)
    requires 1 <= n <= |keys|
    ensures IsPair(keys, keys, n, n) && !IsRemoved(keys, keys, n) && !IsAdded(keys, keys, n)
  {
    OccurrenceOf(keys, n);
  }

  lemma {:induction false} PairedMember<K>(base: seq<K>, head: seq<K>, n: nat, b: nat, h: nat)
    requires n <= |base|
    ensures (b, h) in PairedUpTo(base, head, n) <==> b <= n && IsPair(base, head, b, h)
  {
    if n > 0 {
      PairedMember(base, head, n - 1, b, h);
      hide Rank, Occurrences;
    }
  }

  lemma {:induction false} RemovedMember<K>(base: seq<K>, head: seq<K>, n: nat, b: nat)
    requires n <= |base|
    ensures b in RemovedUpTo(base, head, n) <==> b <= n && IsRemoved(base, head, b)
  {
    if n > 0 { RemovedMember(base, head, n - 1, b); }
  }

  lemma {:induction false} RemovedDistinct<K>(base: seq<K>, head: seq<K>, n: nat)
    requires n <= |base|
    ensures forall i, j | 0 <= i < j < |RemovedUpTo(base, head, n)| ::
      RemovedUpTo(base, head, n)[i] < RemovedUpTo(base, head, n)[j]
  {
    if n > 0 {
      RemovedDistinct(base, head, n - 1);
      var r := RemovedUpTo(base, head, n - 1);
      forall i | 0 <= i < |r|
        ensures r[i] < n
      {
        assert r[i] in r;
        RemovedMember(base, head, n - 1, r[i]);
      }
      assert RemovedUpTo(base, head, n) == r || RemovedUpTo(base, head, n) == r + [n];
    }
  }

  /** No head rule is in two pairs. */
  lemma {:induction false} PairedDistinct<K>(base: seq<K>, head: seq<K>, n: nat)
    requires n <= |base|
    ensures forall i, j | 0 <= i < j < |PairedUpTo(base, head, n)| ::
      PairedUpTo(base, head, n)[i].1 != PairedUpTo(base, head, n)[j].1
  {
    if n > 0 {
      PairedDistinct(base, head, n - 1);
      var r := PairedUpTo(base, head, n - 1);
      if PartnerOf(base, head, n).Paired? {
        var h := PartnerOf(base, head, n).number;
        PairIs(base, head, n, h);
        forall i | 0 <= i < |r|
          ensures r[i].1 != h
        {
          assert (r[i].0, r[i].1) in r;
          PairedMember(base, head, n - 1, r[i].0, r[i].1);
          PairsAreOneToOne(base, head, r[i].0, n, r[i].1, h);
        }
      }
    }
  }

  // -------------------------------------------------------------- the loops

  function Reversed(s: seq<nat>): seq<nat> {
    seq(|s|, i requires 0 <= i < |s| => s[|s| - 1 - i])
  }

  lemma ReversedPop(s: seq<nat>)
    ensures |Reversed(s)| == |s|
    ensures s != [] ==> Reversed(s)[|s| - 1] == s[0] && Reversed(s)[..|s| - 1] == Reversed(s[1..])
  {
  }

  /** Group the rules' numbers by key. */
  method GroupByKey<K(==)>(keys: seq<K>) returns (byKey: map<K, seq<nat>>)
    ensures forall k :: (if k in byKey then byKey[k] else []) == Occurrences(keys, k)
  {
    byKey := map[];
    for i := 0 to |keys|
      invariant forall k :: (if k in byKey then byKey[k] else []) == Occurrences(keys[..i], k)
    {
      var row := if keys[i] in byKey then byKey[keys[i]] else [];
      byKey := byKey[keys[i] := row + [i + 1]];
      assert keys[..i + 1][..i] == keys[..i];
    }
    assert keys[..|keys|] == keys;
  }

  /** What is left of a key's numbers after the base rules took theirs. */
  function Left<K(==)>(base: seq<K>, head: seq<K>, k: K): seq<nat> {
    var there := Occurrences(head, k);
    there[Min(|Occurrences(base, k)|, |there|)..]
  }

  lemma LeftStart<K>(base: seq<K>, head: seq<K>, k: K)
    ensures Left(base[..0], head, k) == Occurrences(head, k)
  {
  }

  /** The next base rule takes the first number left under its key, if any. */
  lemma LeftStep<K>(base: seq<K>, head: seq<K>, i: nat, k: K)
    requires i < |base|
    ensures var left := Left(base[..i], head, k);
      Left(base[..i + 1], head, k) == if k == base[i] && left != [] then left[1..] else left
    ensures k == base[i] ==> var left := Left(base[..i], head, k);
      PartnerOf(base, head, i + 1) == if left == [] then Alone else Paired(left[0])
  {
    assert base[..i + 1][..i] == base[..i];
  }

  method PairRules<K(==, !new)>(base: seq<K>, head: seq<K>)
    returns (paired: seq<(nat, nat)>, removed: seq<nat>, added: seq<nat>)
    ensures paired == PairedUpTo(base, head, |base|)
    ensures removed == RemovedUpTo(base, head, |base|)
    ensures forall i, j | 0 <= i < j < |added| :: added[i] < added[j]
    ensures forall n: nat :: n in added <==> IsAdded(base, head, n)
  {
    var grouped := GroupByKey(head);
    var byKey := map k | k in grouped :: Reversed(grouped[k]);
    assert TableHolds(byKey, base, head, 0) by {
      forall k { LeftStart(base, head, k); }
    }
    paired, removed, byKey := TakeTurns(base, head, byKey);
    assert base[..|base|] == base;
    added := CollectLeft(base, head, byKey);
  }

  function Row<K(==)>(byKey: map<K, seq<nat>>, k: K): seq<nat> {
    if k in byKey then byKey[k] else []
  }

  /** After `i` base rules the table holds what is left under each key, next number last. */
  ghost predicate TableHolds<K(!new)>(byKey: map<K, seq<nat>>, base: seq<K>, head: seq<K>, i: nat)
    requires i <= |base|
  {
    forall k :: Row(byKey, k) == Reversed(Left(base[..i], head, k))
  }

  /** What the table says about base rule `i`, and the table after it. */
  lemma TableStep<K(!new)>(byKey: map<K, seq<nat>>, base: seq<K>, head: seq<K>, i: nat)
    requires i < |base| && TableHolds(byKey, base, head, i)
    ensures var key, row := base[i], Row(byKey, base[i]);
      if row == [] then
        PartnerOf(base, head, i + 1) == Alone && TableHolds(byKey, base, head, i + 1)
      else
        && PartnerOf(base, head, i + 1) == Paired(row[|row| - 1])
        && TableHolds(byKey[key := row[..|row| - 1]], base, head, i + 1)
  {
    hide Left, Occurrences, Rank, PartnerOf, Reversed;
    var key, row := base[i], Row(byKey, base[i]);
    ReversedPop(Left(base[..i], head, key));
    LeftStep(base, head, i, key);
    var next := if row == [] then byKey else byKey[key := row[..|row| - 1]];
    forall k
      ensures Row(next, k) == Reversed(Left(base[..i + 1], head, k))
    {
      LeftStep(base, head, i, k);
    }
  }

  /** The loop over the base rules: each pops the next number of its key. */
  method TakeTurns<K(==, !new)>(base: seq<K>, head: seq<K>, table: map<K, seq<nat>>)
    returns (paired: seq<(nat, nat)>, removed: seq<nat>, byKey: map<K, seq<nat>>)
    requires TableHolds(table, base, head, 0)
    ensures paired == PairedUpTo(base, head, |base|)
    ensures removed == RemovedUpTo(base, head, |base|)
    ensures TableHolds(byKey, base, head, |base|)
  {
    hide TableHolds, PartnerOf;
    byKey := table;
    paired, removed := [], [];
    for i := 0 to |base|
      invariant paired == PairedUpTo(base, head, i) && removed == RemovedUpTo(base, head, i)
      invariant TableHolds(byKey, base, head, i)
    {
      TableStep(byKey, base, head, i);
      var row := Row(byKey, base[i]);
      if row == [] {
        removed := removed + [i + 1];
      } else {
        paired := paired + [(i + 1, row[|row| - 1])];
        byKey := byKey[base[i] := row[..|row| - 1]];
      }
    }
  }

  predicate NatLe(a: nat, b: nat) { a <= b }

  /** Flatten the remaining numbers of all keys and sort them. */
  method CollectLeft<K(==)>(base: seq<K>, head: seq<K>, byKey: map<K, seq<nat>>) returns (added: seq<nat>)
    requires forall k :: (if k in byKey then byKey[k] else []) == Reversed(Left(base, head, k))
    ensures forall i, j | 0 <= i < j < |added| :: added[i] < added[j]
    ensures forall n: nat :: n in added <==> IsAdded(base, head, n)
  {
    forall n: nat | IsAdded(base, head, n)
      ensures head[n - 1] in byKey
    {
      RowHas(base, head, n);
    }
    hide Rank, Occurrences;
    var keys := byKey.Keys;
    var flat: seq<nat> := [];
    while keys != {}
      invariant keys <= byKey.Keys
      invariant forall n: nat :: n in flat <==> IsAdded(base, head, n) && head[n - 1] !in keys
      invariant forall i, j | 0 <= i < j < |flat| :: flat[i] != flat[j]
      decreases keys
    {
      var k :| k in keys;
      var row := byKey[k];
      forall n: nat { RowNumbers(base, head, k, n); }
      RowDistinct(base, head, k);
      ConcatDistinct(flat, row);
      flat := flat + row;
      keys := keys - {k};
    }
    added := Sort(flat, NatLe);
    SortKeeps(flat, NatLe);
    SortDistinct(flat);
  }

  /** A number left under key `k` belongs to an unpaired rule with that key. */
  lemma RowAt<K>(base: seq<K>, head: seq<K>, k: K, i: nat)
    requires i < |Left(base, head, k)|
    ensures var n, there := Reversed(Left(base, head, k))[i], Occurrences(head, k);
      && IsAdded(base, head, n) && head[n - 1] == k && Rank(head, n) == |there| - 1 - i
  {
    hide Occurrences, Rank;
    var there := Occurrences(head, k);
    OccurrenceAt(head, k, |there| - 1 - i);
    assert Reversed(Left(base, head, k))[i] == there[|there| - 1 - i];
  }

  /** And every unpaired rule is left under its key. */
  lemma RowHas<K>(base: seq<K>, head: seq<K>, n: nat)
    requires IsAdded(base, head, n)
    ensures n in Reversed(Left(base, head, head[n - 1]))
  {
    var k := head[n - 1];
    var there := Occurrences(head, k);
    OccurrenceOf(head, n);
    assert Reversed(Left(base, head, k))[|there| - 1 - Rank(head, n)] == n;
  }

  lemma RowNumbers<K>(base: seq<K>, head: seq<K>, k: K, n: nat)
    ensures n in Reversed(Left(base, head, k)) <==> IsAdded(base, head, n) && head[n - 1] == k
  {
    var row := Reversed(Left(base, head, k));
    if n in row {
      var i :| 0 <= i < |row| && row[i] == n;
      RowAt(base, head, k, i);
    }
    if IsAdded(base, head, n) && head[n - 1] == k { RowHas(base, head, n); }
  }

  lemma RowDistinct<K>(base: seq<K>, head: seq<K>, k: K)
    ensures var row := Reversed(Left(base, head, k)); forall i, j | 0 <= i < j < |row| :: row[i] != row[j]
  {
    var row := Reversed(Left(base, head, k));
    forall i, j | 0 <= i < j < |row|
      ensures row[i] != row[j]
    {
      RowAt(base, head, k, i);
      RowAt(base, head, k, j);
    }
  }

  lemma ConcatDistinct(a: seq<nat>, b: seq<nat>)
    requires forall i, j | 0 <= i < j < |a| :: a[i] != a[j]
    requires forall i, j | 0 <= i < j < |b| :: b[i] != b[j]
    requires forall n: nat :: n in a ==> n !in b
    ensures forall i, j | 0 <= i < j < |a + b| :: (a + b)[i] != (a + b)[j]
  {
    forall i, j | 0 <= i < j < |a + b|
      ensures (a + b)[i] != (a + b)[j]
    {
      if i < |a| <= j { assert a[i] in a && b[j - |a|] in b; }
    }
  }

  lemma SortDistinct(flat: seq<nat>)
    requires forall i, j | 0 <= i < j < |flat| :: flat[i] != flat[j]
    ensures forall i, j | 0 <= i < j < |Sort(flat, NatLe)| :: Sort(flat, NatLe)[i] < Sort(flat, NatLe)[j]
  {
    SortSorted(flat, NatLe);
    SortKeepsDistinct(flat, NatLe);
    forall i, j | 0 <= i < j < |Sort(flat, NatLe)|
      ensures Sort(flat, NatLe)[i] < Sort(flat, NatLe)[j]
    {
      assert NatLe(Sort(flat, NatLe)[i], Sort(flat, NatLe)[j]);
    }
  }
}
