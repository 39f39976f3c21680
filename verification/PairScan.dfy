// The pairs of primitives a query between two trees should report.
module PairScan {
  import opened BoxTree

  type PairTest = (nat, nat) -> bool

  // The accepted pairs of one primitive and a list.
  function Row(i: nat, k: seq<nat>, accept: PairTest): multiset<(nat, nat)>
    decreases |k|
  {
    if k == [] then multiset{}
    else Head(i, k, accept) + Row(i, k[1..], accept)
  }

  function Head(i: nat, k: seq<nat>, accept: PairTest): multiset<(nat, nat)>
    requires k != []
  {
    if accept(i, k[0]) then multiset{(i, k[0])} else multiset{}
  }

  // The accepted pairs of two lists.
  function Pairs(l: seq<nat>, k: seq<nat>, accept: PairTest): multiset<(nat, nat)> {
    if l == [] then multiset{} else Row(l[0], k, accept) + Pairs(l[1..], k, accept)
  }

  lemma RowUnfolds(i: nat, k: seq<nat>, accept: PairTest)
    requires k != []
    ensures Row(i, k, accept) == Head(i, k, accept) + Row(i, k[1..], accept)
  {
  }

  lemma {:induction false} RowSplits(i: nat, k: seq<nat>, k': seq<nat>, accept: PairTest)
    ensures Row(i, k + k', accept) == Row(i, k, accept) + Row(i, k', accept)
    decreases |k|
  {
    if k == [] {
      assert k + k' == k';
      NothingAdded(Row(i, k', accept));
    } else {
      hide Head, Row;
      RowSplits(i, k[1..], k', accept);
      RowUnfolds(i, k + k', accept);
      RowUnfolds(i, k, accept);
      HeadOfFirst(i, k, k', accept);
      RestOfConcat(k, k');
      Regroup(Head(i, k, accept), Row(i, k[1..], accept), Row(i, k', accept));
    }
  }

  lemma NothingAdded(a: multiset<(nat, nat)>)
    ensures multiset{} + a == a
  {
  }

  lemma HeadOfFirst(i: nat, k: seq<nat>, k': seq<nat>, accept: PairTest)
    requires k != []
    ensures Head(i, k + k', accept) == Head(i, k, accept)
  {
  }

  lemma Regroup(a: multiset<(nat, nat)>, b: multiset<(nat, nat)>, c: multiset<(nat, nat)>)
    ensures a + (b + c) == (a + b) + c
  {
  }

  lemma {:induction false} PairsSplitSecond(l: seq<nat>, k: seq<nat>, k': seq<nat>, accept: PairTest)
    ensures Pairs(l, k + k', accept) == Pairs(l, k, accept) + Pairs(l, k', accept)
  {
    if l != [] {
      PairsUnfold(l, k + k', accept);
      PairsUnfold(l, k, accept);
      PairsUnfold(l, k', accept);
      RowSplits(l[0], k, k', accept);
      PairsSplitSecond(l[1..], k, k', accept);
      hide Row, Pairs;
      Interleave(Row(l[0], k, accept), Row(l[0], k', accept), Pairs(l[1..], k, accept), Pairs(l[1..], k', accept));
    }
  }

  lemma PairsUnfold(l: seq<nat>, k: seq<nat>, accept: PairTest)
    requires l != []
    ensures Pairs(l, k, accept) == Row(l[0], k, accept) + Pairs(l[1..], k, accept)
  {
  }

  lemma Interleave(a: multiset<(nat, nat)>, b: multiset<(nat, nat)>, c: multiset<(nat, nat)>, d: multiset<(nat, nat)>)
    ensures (a + b) + (c + d) == (a + c) + (b + d)
  {
  }

  lemma {:induction false} PairsSplitFirst(l: seq<nat>, l': seq<nat>, k: seq<nat>, accept: PairTest)
    ensures Pairs(l + l', k, accept) == Pairs(l, k, accept) + Pairs(l', k, accept)
  {
    if l == [] {
      assert l + l' == l';
      NothingAdded(Pairs(l', k, accept));
    } else {
      hide Row, Pairs;
      PairsUnfold(l + l', k, accept);
      PairsUnfold(l, k, accept);
      PairsSplitFirst(l[1..], l', k, accept);
      RestOfConcat(l, l');
      Regroup(Row(l[0], k, accept), Pairs(l[1..], k, accept), Pairs(l', k, accept));
    }
  }

  lemma PairsOfOne(i: nat, j: nat, accept: PairTest)
    ensures Pairs([i], [j], accept) == if accept(i, j) then multiset{(i, j)} else multiset{}
  {
    assert [i][1..] == [] && [j][1..] == [];
    assert Row(i, [], accept) == multiset{} && Pairs([], [j], accept) == multiset{};
    assert Row(i, [j], accept) == (if accept(i, j) then multiset{(i, j)} else multiset{}) + Row(i, [], accept);
  }

  lemma {:induction false} RowCounts(i: nat, k: seq<nat>, accept: PairTest, p: (nat, nat))
    ensures Row(i, k, accept)[p] == if p.0 == i && accept(i, p.1) then multiset(k)[p.1] else 0
    decreases |k|
  {
    if k != [] {
      RowCounts(i, k[1..], accept, p);
      assert k == [k[0]] + k[1..];
    }
  }

  // A pair is due as often as its members occur, if the test accepts it, and never otherwise.
  lemma {:induction false} PairsCount(l: seq<nat>, k: seq<nat>, accept: PairTest, p: (nat, nat))
    ensures Pairs(l, k, accept)[p] == if accept(p.0, p.1) then multiset(l)[p.0] * multiset(k)[p.1] else 0
  {
    if l != [] {
      RowCounts(l[0], k, accept, p);
      PairsCount(l[1..], k, accept, p);
      FirstCounts(l, p.0);
      hide Row;
      OneMore(multiset(l[1..])[p.0], multiset(k)[p.1]);
    }
  }

  lemma FirstCounts(l: seq<nat>, i: nat)
    requires l != []
    ensures multiset(l)[i] == multiset(l[1..])[i] + if l[0] == i then 1 else 0
  {
    assert l == [l[0]] + l[1..];
  }

  lemma OneMore(n: nat, m: nat)
    ensures (n + 1) * m == n * m + m
  {
  }

  // Lists without repetition make every accepted pair due exactly once.
  lemma EachPairOnce(l: seq<nat>, k: seq<nat>, accept: PairTest, i: nat, j: nat)
    requires multiset(l)[i] == 1 && multiset(k)[j] == 1
    ensures Pairs(l, k, accept)[(i, j)] == if accept(i, j) then 1 else 0
  {
    PairsCount(l, k, accept, (i, j));
  }

  // The pairs that are due are accepted and come from the two lists.
  lemma PairsHold(l: seq<nat>, k: seq<nat>, accept: PairTest, p: (nat, nat))
    ensures p in Pairs(l, k, accept) <==> p.0 in l && p.1 in k && accept(p.0, p.1)
  {
    PairsCount(l, k, accept, p);
    hide Pairs;
    assert p.0 in l <==> multiset(l)[p.0] > 0;
    assert p.1 in k <==> multiset(k)[p.1] > 0;
    ProductSign(multiset(l)[p.0], multiset(k)[p.1]);
  }

  lemma ProductSign(n: nat, m: nat)
    ensures n * m > 0 <==> n > 0 && m > 0
  {
  }

  lemma {:induction false} RowOfNone(i: nat, k: seq<nat>, accept: PairTest)
    requires forall j <- k :: !accept(i, j)
    ensures Row(i, k, accept) == multiset{}
    decreases |k|
  {
    if k != [] {
      RowOfNone(i, k[1..], accept);
    }
  }

  lemma {:induction false} PairsOfNone(l: seq<nat>, k: seq<nat>, accept: PairTest)
    requires forall i <- l, j <- k :: !accept(i, j)
    ensures Pairs(l, k, accept) == multiset{}
  {
    if l != [] {
      RowOfNone(l[0], k, accept);
      PairsOfNone(l[1..], k, accept);
    }
  }

  // What a query reports of the pairs that are due: all of them, or one when there is any.
  ghost predicate Reported(first: bool, found: seq<(nat, nat)>, due: multiset<(nat, nat)>) {
    if first then |found| == (if due == multiset{} then 0 else 1) && forall p <- found :: p in due
    else multiset(found) == due
  }

  lemma ReportedBoth(first: bool, found: seq<(nat, nat)>, due: multiset<(nat, nat)>,
                     more: seq<(nat, nat)>, rest: multiset<(nat, nat)>)
    requires Reported(first, found, due) && Reported(first, more, rest)
    requires !(first && found != [])
    ensures Reported(first, found + more, due + rest)
  {
    if first {
      assert found + more == more && due + rest == rest;
    }
  }

  lemma ReportedSome(first: bool, found: seq<(nat, nat)>, due: multiset<(nat, nat)>)
    requires Reported(first, found, due)
    ensures found != [] <==> due != multiset{}
  {
    if !first {
      assert |due| == |found|;
    }
  }
}
