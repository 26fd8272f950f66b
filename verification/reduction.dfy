/**
 * The reduction all four metrics share: group entries by key, sum the
 * amounts within each group, then divide the total of the group sums by the
 * number of groups. With the key (user, date_stamp) this is a daily-total
 * average, not a per-record mean.
 */
module Reduction {
  import opened Wrappers

  /** One row's contribution: its group key and the quantity being summed. */
  datatype Entry<K> = Entry(key: K, amount: real)

  /** One group of the grouped frame: its key and the sum of its amounts. */
  datatype Group<K> = Group(key: K, total: real)

  /** The sum of all amounts. */
  function Total<K>(xs: seq<Entry<K>>): real
  {
    if xs == [] then 0.0 else Total(xs[..|xs| - 1]) + xs[|xs| - 1].amount
  }

  /** The sum of the amounts filed under key k. */
  function AmountFor<K(==)>(xs: seq<Entry<K>>, k: K): real
  {
    if xs == [] then 0.0
    else
      var last := xs[|xs| - 1];
      AmountFor(xs[..|xs| - 1], k) + if last.key == k then last.amount else 0.0
  }

  /** The distinct keys that occur. */
  function Keys<K(==)>(xs: seq<Entry<K>>): set<K>
  {
    set i | 0 <= i < |xs| :: xs[i].key
  }

  predicate Distinct<K(==)>(ks: seq<K>)
  {
    forall i, j :: 0 <= i < j < |ks| ==> ks[i] != ks[j]
  }

  /** The distinct keys in order of first appearance. */
  function KeyOrder<K(==)>(xs: seq<Entry<K>>): (ks: seq<K>)
    ensures Distinct(ks)
  {
    if xs == [] then []
    else
      var ks := KeyOrder(xs[..|xs| - 1]);
      var k := xs[|xs| - 1].key;
      if k in ks then ks else ks + [k]
  }

  /** groupby(key).sum(): one group per distinct key, holding the sum of that key's amounts. */
  function GroupSums<K(==)>(xs: seq<Entry<K>>): (gs: seq<Group<K>>)
    ensures |gs| == |KeyOrder(xs)|
  {
    var ks := KeyOrder(xs);
    seq(|ks|, i requires 0 <= i < |ks| => Group(ks[i], AmountFor(xs, ks[i])))
  }

  /** The total of the group sums. */
  function SumTotals<K>(gs: seq<Group<K>>): real
  {
    if gs == [] then 0.0 else gs[0].total + SumTotals(gs[1..])
  }

  /**
   * The group-sum-mean: the total of the group sums divided by the number of
   * groups, or None when there are no groups to divide by.
   */
  function DailyMean<K(==)>(xs: seq<Entry<K>>): Option<real>
  {
    var gs := GroupSums(xs);
    if |gs| == 0 then None else Some(SumTotals(gs) / |gs| as real)
  }

  /** The reference definition: everything summed, divided by the number of distinct keys. */
  function TotalPerKey<K(==)>(xs: seq<Entry<K>>): Option<real>
  {
    if |Keys(xs)| == 0 then None else Some(Total(xs) / |Keys(xs)| as real)
  }

  /** The sum, over the keys ks, of the amounts filed under each. */
  function SumAmounts<K(==)>(xs: seq<Entry<K>>, ks: seq<K>): real
  {
    if ks == [] then 0.0 else AmountFor(xs, ks[0]) + SumAmounts(xs, ks[1..])
  }

  lemma KeysOfPrefix<K>(xs: seq<Entry<K>>)
    requires xs != []
    ensures Keys(xs) == Keys(xs[..|xs| - 1]) + {xs[|xs| - 1].key}
  {
    var n := |xs| - 1;
    forall x | x in Keys(xs[..n]) ensures x in Keys(xs) {
      var i :| 0 <= i < n && xs[..n][i].key == x;
      assert xs[i].key == x;
    }
  }

  /** The groups' keys are exactly the keys that occur, each once. */
  lemma {:induction false} KeyOrderIsKeys<K>(xs: seq<Entry<K>>)
    ensures forall k :: k in KeyOrder(xs) <==> k in Keys(xs)
    ensures |KeyOrder(xs)| == |Keys(xs)|
  {
    if xs != [] {
      KeyOrderIsKeys(xs[..|xs| - 1]);
      KeysOfPrefix(xs);
    }
  }

  /** Summing over distinct keys after one more entry adds that entry's amount once, if its key is among them. */
  lemma {:induction false} SumAmountsStep<K>(xs: seq<Entry<K>>, ks: seq<K>)
    requires xs != [] && Distinct(ks)
    ensures SumAmounts(xs, ks) ==
      SumAmounts(xs[..|xs| - 1], ks) + if xs[|xs| - 1].key in ks then xs[|xs| - 1].amount else 0.0
  {
    if ks != [] {
      assert Distinct(ks[1..]) by {
        forall i, j | 0 <= i < j < |ks[1..]| ensures ks[1..][i] != ks[1..][j] {
          assert ks[1..][i] == ks[i + 1] && ks[1..][j] == ks[j + 1];
        }
      }
      SumAmountsStep(xs, ks[1..]);
      assert forall k :: k in ks <==> k == ks[0] || k in ks[1..];
      assert ks[0] !in ks[1..] by {
        forall i | 0 <= i < |ks[1..]| ensures ks[1..][i] != ks[0] {
          assert ks[1..][i] == ks[i + 1];
        }
      }
    }
  }

  /** Over a list of distinct keys covering every key, the per-key sums add up to the grand total. */
  lemma {:induction false} SumAmountsIsTotal<K>(xs: seq<Entry<K>>, ks: seq<K>)
    requires Distinct(ks) && forall k :: k in Keys(xs) ==> k in ks
    ensures SumAmounts(xs, ks) == Total(xs)
  {
    if xs == [] {
      NoEntriesNoAmounts(ks);
    } else {
      KeysOfPrefix(xs);
      SumAmountsIsTotal(xs[..|xs| - 1], ks);
      SumAmountsStep(xs, ks);
    }
  }

  lemma {:induction false} NoEntriesNoAmounts<K>(ks: seq<K>)
    ensures SumAmounts([], ks) == 0.0
  {
    if ks != [] {
      NoEntriesNoAmounts(ks[1..]);
    }
  }

  lemma {:induction false} SumTotalsOfGroups<K>(xs: seq<Entry<K>>, ks: seq<K>, gs: seq<Group<K>>)
    requires |gs| == |ks| && forall i :: 0 <= i < |ks| ==> gs[i] == Group(ks[i], AmountFor(xs, ks[i]))
    ensures SumTotals(gs) == SumAmounts(xs, ks)
  {
    if ks != [] {
      SumTotalsOfGroups(xs, ks[1..], gs[1..]);
    }
  }

  /**
   * The grouped frame has one group per distinct key, no key twice, and each
   * group's total is the sum of the amounts filed under its key; the group
   * totals add up to the grand total.
   */
  lemma GroupSumsAreKeyTotals<K>(xs: seq<Entry<K>>)
    ensures forall k :: (exists i :: 0 <= i < |GroupSums(xs)| && GroupSums(xs)[i].key == k) <==> k in Keys(xs)
    ensures forall i, j :: 0 <= i < j < |GroupSums(xs)| ==> GroupSums(xs)[i].key != GroupSums(xs)[j].key
    ensures forall i :: 0 <= i < |GroupSums(xs)| ==> GroupSums(xs)[i].total == AmountFor(xs, GroupSums(xs)[i].key)
    ensures |GroupSums(xs)| == |Keys(xs)|
    ensures SumTotals(GroupSums(xs)) == Total(xs)
  {
    var ks, gs := KeyOrder(xs), GroupSums(xs);
    KeyOrderIsKeys(xs);
    forall k ensures (exists i :: 0 <= i < |gs| && gs[i].key == k) <==> k in Keys(xs) {
      if k in Keys(xs) {
        var i :| 0 <= i < |ks| && ks[i] == k;
        assert gs[i].key == k;
      }
    }
    SumTotalsOfGroups(xs, ks, gs);
    SumAmountsIsTotal(xs, ks);
  }

  /**
   * The group-sum-mean equals the grand total divided by the number of
   * distinct keys, and there is no mean exactly when there are no entries.
   */
  lemma DailyMeanIsTotalPerKey<K>(xs: seq<Entry<K>>)
    ensures DailyMean(xs) == TotalPerKey(xs)
    ensures DailyMean(xs).None? <==> xs == []
  {
    GroupSumsAreKeyTotals(xs);
    if xs != [] {
      assert xs[0].key in Keys(xs);
    }
  }
}
