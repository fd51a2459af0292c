/** Sums over threads, for the measures of the thread models. */
module Totals {

  ghost function Total(ranks: map<nat, nat>): nat
    decreases |ranks|
  {
    if ranks == map[] then 0
    else
      var t :| t in ranks;
      ranks[t] + Total(ranks - {t})
  }

  lemma {:induction false} TotalWithout(ranks: map<nat, nat>, t: nat)
    requires t in ranks
    ensures Total(ranks) == ranks[t] + Total(ranks - {t})
    decreases |ranks|
  {
    var u :| u in ranks && Total(ranks) == ranks[u] + Total(ranks - {u});
    if u != t {
      TotalWithout(ranks - {u}, t);
      TotalWithout(ranks - {t}, u);
      assert ranks - {u} - {t} == ranks - {t} - {u};
    }
  }

  lemma TotalMove(ranks: map<nat, nat>, t: nat, rank: nat)
    requires t in ranks
    ensures Total(ranks[t := rank]) == Total(ranks) - ranks[t] + rank
  {
    TotalWithout(ranks, t);
    TotalWithout(ranks[t := rank], t);
    assert ranks[t := rank] - {t} == ranks - {t};
  }
}
