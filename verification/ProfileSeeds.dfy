/** The hot seeds of profile-driven range selection (src/app/pipeline.c:846-859, 980-1010). */
module ProfileSeeds {

  // Hot seeds

  datatype Hot = Hot(index: nat, samples: nat)

  /** `compare_hot_range`: more samples first, then the lower index. */
  predicate Hotter(a: Hot, b: Hot) { a.samples > b.samples || (a.samples == b.samples && a.index <= b.index) }

  ghost predicate ByHeat(hot: seq<Hot>) { forall i, j | 0 <= i < j < |hot| :: Hotter(hot[i], hot[j]) }

  /** An order in which more samples come first, and of equally many the lower index. */
  lemma HotterOrders(a: Hot, b: Hot, c: Hot)
    ensures Hotter(a, b) || Hotter(b, a)
    ensures Hotter(a, b) && Hotter(b, a) ==> a == b
    ensures Hotter(a, b) && Hotter(b, c) ==> Hotter(a, c)
    ensures Hotter(a, b) ==> a.samples > b.samples || (a.samples == b.samples && a.index <= b.index)
  {
  }

  predicate Eligible(weights: seq<nat>, minimum: nat, i: nat) {
    i < |weights| && weights[i] >= minimum && weights[i] != 0
  }

  /** Each eligible range once, with its weight, hottest first. */
  ghost predicate ListsEligible(hot: seq<Hot>, weights: seq<nat>, minimum: nat, upTo: nat) {
    && (forall k | 0 <= k < |hot| ::
       hot[k].index < upTo && Eligible(weights, minimum, hot[k].index) && hot[k].samples == weights[hot[k].index])
    && (forall i: nat | i < upTo && Eligible(weights, minimum, i) :: exists k :: 0 <= k < |hot| && hot[k].index == i)
    && (forall j, k | 0 <= j < k < |hot| :: hot[j].index != hot[k].index)
    && ByHeat(hot)
  }

  function Samples(hot: seq<Hot>): nat {
    if hot == [] then 0 else Samples(hot[..|hot| - 1]) + hot[|hot| - 1].samples
  }

  lemma {:induction false} SamplesSplit(a: seq<Hot>, b: seq<Hot>)
    ensures Samples(a + b) == Samples(a) + Samples(b)
  {
    if b == [] {
      assert a + b == a;
    } else {
      assert (a + b)[..|a + b| - 1] == a + b[..|b| - 1];
      SamplesSplit(a, b[..|b| - 1]);
    }
  }

  method CollectHot(weights: seq<nat>, minimum: nat) returns (hot: seq<Hot>, eligible: nat)
    ensures ListsEligible(hot, weights, minimum, |weights|)
    ensures eligible == Samples(hot)
  {
    hot, eligible := [], 0;
    for i := 0 to |weights|
      invariant ListsEligible(hot, weights, minimum, i) && eligible == Samples(hot)
    {
      if weights[i] >= minimum && weights[i] != 0 {
        hot := InsertHot(hot, Hot(i, weights[i]), weights, minimum, i);
        eligible := eligible + weights[i];
      }
    }
  }

  method InsertHot(hot: seq<Hot>, h: Hot, weights: seq<nat>, minimum: nat, i: nat) returns (after: seq<Hot>)
    requires ListsEligible(hot, weights, minimum, i) && Eligible(weights, minimum, i) && h == Hot(i, weights[i])
    ensures ListsEligible(after, weights, minimum, i + 1) && Samples(after) == Samples(hot) + h.samples
  {
    var at := |hot|;
    while at > 0 && !Hotter(hot[at - 1], h)
      invariant 0 <= at <= |hot| && forall k | at <= k < |hot| :: Hotter(h, hot[k])
    {
      at := at - 1;
    }
    after := hot[..at] + [h] + hot[at..];
    assert hot == hot[..at] + hot[at..];
    SamplesSplit(hot[..at], hot[at..]);
    SamplesSplit(hot[..at], [h]);
    SamplesSplit(hot[..at] + [h], hot[at..]);
    assert [h][..0] == [];
    InsertKeepsHeat(hot, at, h);
    InsertLists(hot, at, h, weights, minimum, i);
  }

  lemma InsertKeepsHeat(hot: seq<Hot>, at: nat, h: Hot)
    requires ByHeat(hot) && at <= |hot| && (at > 0 ==> Hotter(hot[at - 1], h))
    requires forall k | at <= k < |hot| :: Hotter(h, hot[k])
    ensures ByHeat(hot[..at] + [h] + hot[at..])
  {
    var after := hot[..at] + [h] + hot[at..];
    forall k | 0 <= k < at ensures Hotter(hot[k], h) {
      assert k < at - 1 ==> Hotter(hot[k], hot[at - 1]);
    }
    forall i, j | 0 <= i < j < |after| ensures Hotter(after[i], after[j]) {
      if i < at && j > at { assert Hotter(hot[i], hot[j - 1]); }
      if i > at { assert Hotter(hot[i - 1], hot[j - 1]); }
      if j < at { assert Hotter(hot[i], hot[j]); }
    }
  }

  lemma InsertLists(hot: seq<Hot>, at: nat, h: Hot, weights: seq<nat>, minimum: nat, i: nat)
    requires ListsEligible(hot, weights, minimum, i) && Eligible(weights, minimum, i)
      && h == Hot(i, weights[i]) && at <= |hot|
    requires ByHeat(hot[..at] + [h] + hot[at..])
    ensures ListsEligible(hot[..at] + [h] + hot[at..], weights, minimum, i + 1)
  {
    hide Eligible, ByHeat;
    InsertedLists(hot, at, h, hot[..at] + [h] + hot[at..], weights, minimum, i);
  }

  lemma InsertedLists(hot: seq<Hot>, at: nat, h: Hot, after: seq<Hot>, weights: seq<nat>, minimum: nat, i: nat)
    requires ListsEligible(hot, weights, minimum, i) && Eligible(weights, minimum, i) && h == Hot(i, weights[i])
    requires at <= |hot| && |after| == |hot| + 1 && ByHeat(after)
    requires forall k | 0 <= k < |after| :: after[k] == Inserted(hot, at, h, k)
    ensures ListsEligible(after, weights, minimum, i + 1)
  {
    hide Eligible, ByHeat;
    forall j: nat | j < i + 1 && Eligible(weights, minimum, j)
      ensures exists k :: 0 <= k < |after| && after[k].index == j
    {
      if j == i {
        assert after[at].index == i;
      } else {
        var k :| 0 <= k < |hot| && hot[k].index == j;
        assert after[if k < at then k else k + 1].index == j;
      }
    }
  }

  function Inserted(hot: seq<Hot>, at: nat, h: Hot, k: nat): Hot
    requires at <= |hot| && k <= |hot|
  {
    if k < at then hot[k] else if k == at then h else hot[k - 1]
  }

  /** The coverage target, in samples times a hundred. */
  function Target(eligible: nat, coverage: real): real { eligible as real * coverage }

  predicate Reaches(samples: nat, eligible: nat, coverage: real) {
    samples as real * 100.0 >= Target(eligible, coverage)
  }

  lemma {:induction false} SamplesGrow(hot: seq<Hot>, j: nat, k: nat)
    requires j <= k <= |hot|
    ensures Samples(hot[..j]) <= Samples(hot[..k])
    decreases k
  {
    if j < k {
      SamplesGrow(hot, j, k - 1);
      assert hot[..k][..k - 1] == hot[..k - 1];
    }
  }

  /** The greedy count: the first whose samples reach the target, and at least one. */
  method CountSeeds(hot: seq<Hot>, eligible: nat, coverage: real) returns (seeds: nat, covered: nat)
    requires hot != [] && eligible == Samples(hot) && 0.0 < coverage <= 100.0
    ensures 1 <= seeds <= |hot| && covered == Samples(hot[..seeds]) && Reaches(covered, eligible, coverage)
    ensures seeds > 1 ==> !Reaches(Samples(hot[..seeds - 1]), eligible, coverage)
  {
    seeds, covered := 0, 0;
    while seeds < |hot| && (!Reaches(covered, eligible, coverage) || seeds == 0)
      invariant seeds <= |hot| && covered == Samples(hot[..seeds])
      invariant seeds > 1 ==> !Reaches(Samples(hot[..seeds - 1]), eligible, coverage)
    {
      assert hot[..seeds + 1][..seeds] == hot[..seeds];
      covered := covered + hot[seeds].samples;
      seeds := seeds + 1;
    }
    assert hot[..|hot|] == hot;
    if seeds == |hot| { AllReaches(eligible, coverage); }
  }

  lemma AllReaches(eligible: nat, coverage: real)
    requires coverage <= 100.0
    ensures Reaches(eligible, eligible, coverage)
  {
    var e := eligible as real;
    assert e * coverage <= e * 100.0;
  }

  function SamplesAt(hot: seq<Hot>, positions: set<nat>): nat
    requires forall p | p in positions :: p < |hot|
    decreases |hot|
  {
    if hot == [] then 0
    else
      var last := |hot| - 1;
      SamplesAt(hot[..last], positions - {last}) + if last in positions then hot[last].samples else 0
  }

  /** No choice of as many ranges has more samples than the hottest ones. */
  lemma {:induction false} HottestAreMost(hot: seq<Hot>, positions: set<nat>)
    requires ByHeat(hot) && forall p | p in positions :: p < |hot|
    ensures |positions| <= |hot| && SamplesAt(hot, positions) <= Samples(hot[..|positions|])
    decreases |hot|
  {
    if hot == [] {
      assert positions == {};
    } else {
      var last := |hot| - 1;
      var rest := positions - {last};
      HottestAreMost(hot[..last], rest);
      if last in positions {
        assert |positions| == |rest| + 1;
        assert hot[..last][..|rest|] == hot[..|rest|] == hot[..|rest| + 1][..|rest|];
        if |rest| < last { assert Hotter(hot[|rest|], hot[last]); }
      } else {
        assert rest == positions;
        assert hot[..last][..|rest|] == hot[..|rest|];
      }
    }
  }

  /** The seed count is the smallest number of eligible ranges that reaches the target. */
  lemma SeedsAreFewest(hot: seq<Hot>, eligible: nat, coverage: real, seeds: nat, positions: set<nat>)
    requires ByHeat(hot) && 1 <= seeds <= |hot| && eligible == Samples(hot) > 0 && 0.0 < coverage <= 100.0
    requires seeds > 1 ==> !Reaches(Samples(hot[..seeds - 1]), eligible, coverage)
    requires forall p | p in positions :: p < |hot|
    requires Reaches(SamplesAt(hot, positions), eligible, coverage)
    ensures |positions| >= seeds
  {
    HottestAreMost(hot, positions);
    if |positions| == 0 {
      NothingReaches(eligible, coverage);
    } else if |positions| < seeds {
      SamplesGrow(hot, |positions|, seeds - 1);
      MoreReaches(SamplesAt(hot, positions), Samples(hot[..seeds - 1]), eligible, coverage);
    }
  }

  lemma NothingReaches(eligible: nat, coverage: real)
    requires eligible > 0 && coverage > 0.0
    ensures !Reaches(0, eligible, coverage)
  {
    var e := eligible as real;
    assert e * coverage > 0.0;
  }

  lemma MoreReaches(samples: nat, more: nat, eligible: nat, coverage: real)
    requires samples <= more && Reaches(samples, eligible, coverage)
    ensures Reaches(more, eligible, coverage)
  {
  }
}
