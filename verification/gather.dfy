/**
  Adding up the replies of the nodes: in 64-bit arithmetic, in whatever order they arrive.
*/
module Gathering {
  import opened Words
  import opened Nodes
  import opened Sums
  import opened Rings
  import opened Dedup

  // The channel holds the answers of the nodes in order, each node once.
  ghost predicate Arrived(answers: map<Addr, UInt64>, channel: seq<UInt64>, order: seq<Addr>)
  {
    && |channel| == |order| && Distinct(order)
    && forall i :: 0 <= i < |order| ==> order[i] in answers && channel[i] == answers[order[i]]
  }

  lemma ArrivedNext(answers: map<Addr, UInt64>, channel: seq<UInt64>, order: seq<Addr>, a: Addr, reply: UInt64)
    requires Arrived(answers, channel, order) && a in answers && a !in order && reply == answers[a]
    ensures Arrived(answers, channel + [reply], order + [a])
  {
  }

  // The receiving loop, in 64-bit arithmetic.
  method AddUp(channel: seq<UInt64>) returns (total: UInt64)
    ensures total == Total(channel) % WORD_LIMIT
  {
    total := 0;
    for i := 0 to |channel|
      invariant total == Total(channel[..i]) % WORD_LIMIT
    {
      assert channel[..i + 1][..i] == channel[..i];
      AddModulo(Total(channel[..i]), channel[i]);
      total := (total + channel[i]) % WORD_LIMIT;
    }
    assert channel[..|channel|] == channel;
  }

  // The replies add up to the same total in whatever order they arrive.
  lemma ArrivalOrderIrrelevant(answers: map<Addr, UInt64>, channel: seq<UInt64>, order: seq<Addr>)
    requires Arrived(answers, channel, order) && forall a :: a in answers ==> a in order
    ensures Total(channel) == Sum(answers)
  {
    ArrivedTotal(answers, channel, order);
    assert Gathered(answers, order) == answers;
  }

  ghost function Gathered<T>(answers: map<Addr, T>, order: seq<Addr>): map<Addr, T>
  {
    map a | a in order && a in answers :: answers[a]
  }

  lemma {:induction false} ArrivedTotal(answers: map<Addr, UInt64>, channel: seq<UInt64>, order: seq<Addr>)
    requires Arrived(answers, channel, order)
    ensures Total(channel) == Sum(Gathered(answers, order))
    decreases |order|
  {
    if order == [] {
      SumOfZeros(Gathered(answers, order));
    } else {
      var n := |order| - 1;
      ArrivedPrefix(answers, channel, order);
      ArrivedTotal(answers, channel[..n], order[..n]);
      LastArrival(answers, order[..n], order[n]);
    }
  }

  lemma ArrivedPrefix(answers: map<Addr, UInt64>, channel: seq<UInt64>, order: seq<Addr>)
    requires Arrived(answers, channel, order) && order != []
    ensures var n := |order| - 1;
            && Arrived(answers, channel[..n], order[..n]) && order == order[..n] + [order[n]]
            && order[n] in answers && order[n] !in order[..n]
            && Total(channel) == Total(channel[..n]) + answers[order[n]]
  {
  }

  lemma LastArrival(answers: map<Addr, UInt64>, order: seq<Addr>, a: Addr)
    requires a in answers && a !in order
    ensures Sum(Gathered(answers, order + [a])) == Sum(Gathered(answers, order)) + answers[a]
  {
    var before := Gathered(answers, order);
    assert Gathered(answers, order + [a]) == before[a := answers[a]];
    assert before - {a} == before;
    SumUpdate(before, a, answers[a]);
  }

  // Wrapping every count to 64 bits does not change the wrapped total.
  lemma {:induction false} SumOfRemainders(counts: map<Addr, nat>, answers: map<Addr, UInt64>)
    requires answers.Keys == counts.Keys
    requires forall a :: a in counts ==> answers[a] == counts[a] % WORD_LIMIT
    ensures Sum(answers) % WORD_LIMIT == Sum(counts) % WORD_LIMIT
    decreases counts.Keys
  {
    if counts != map[] {
      var a :| a in counts.Keys;
      SumRemove(counts, a);
      SumRemove(answers, a);
      SumOfRemainders(counts - {a}, answers - {a});
      SameTotal(Sum(answers - {a}), Sum(counts - {a}), counts[a]);
    } else {
      assert answers.Keys == {};
    }
  }

  // Wrapping every entry does not change the wrapped total of a list.
  lemma {:induction false} TotalOfRemainders(counts: seq<nat>, answers: seq<UInt64>)
    requires |answers| == |counts|
    requires forall i :: 0 <= i < |counts| ==> answers[i] == counts[i] % WORD_LIMIT
    ensures Total(answers) % WORD_LIMIT == Total(counts) % WORD_LIMIT
    decreases |counts|
  {
    if counts == [] {
    } else {
      var n := |counts| - 1;
      TotalOfRemainders(counts[..n], answers[..n]);
      SameTotal(Total(answers[..n]), Total(counts[..n]), counts[n]);
    }
  }

  lemma SameTotal(x: nat, y: nat, c: nat)
    requires x % WORD_LIMIT == y % WORD_LIMIT
    ensures (c % WORD_LIMIT + x) % WORD_LIMIT == (c + y) % WORD_LIMIT
  {
    AddModulo(c, x);
    AddModulo(c, y);
  }
}
