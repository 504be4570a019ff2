/** Worked examples of the engine on small tables. */
module Scenarios {
  import opened Scoring
  import opened Matcher

  /** 2024-01-05 and 2024-01-06 as days since 1970-01-01. */
  const Jan5: int := 19727
  const Jan6: int := 19728

  /** Same amount, one day apart, similar descriptions: matched, with
      40 for the amount, 20 for the date and 0.3 of the similarity. */
  lemma ScenarioCloseMatch(sim: Similarity)
    requires sim("amzn purchase", "amazon purchase") >= DescSimThreshold
    ensures var b := Rec(Jan5, 100.0, "amzn purchase");
            var l := Rec(Jan6, 100.0, "amazon purchase");
            var s := sim("amzn purchase", "amazon purchase");
            Reconciliation(sim, [b], [l]) == Outcome([MatchRow(0, 0, b, l, 60.0 + 0.3 * s)], [], [])
  {
    var b := Rec(Jan5, 100.0, "amzn purchase");
    var l := Rec(Jan6, 100.0, "amazon purchase");
    EligibleConfidenceIsLinear(sim, b, l);
    var c := Confidence(sim, b, l);
    assert Scan(sim, b, [l], {}, 1) == Best(c, Some(0));
    assert Greedy(sim, [b], [l], 1) == Progress([MatchRow(0, 0, b, l, c)], [], {0});
    assert Leftover([l], {0}, 1) == [];
  }

  /** An amount five units off is never eligible, whatever the descriptions:
      both records end up unmatched with their fixed reasons. */
  lemma ScenarioAmountTooFar(sim: Similarity)
    ensures var b := Rec(Jan5, 100.0, "rent");
            var l := Rec(Jan5, 105.0, "rent");
            Reconciliation(sim, [b], [l])
              == Outcome([], [UnmatchedRow(0, b, NoSuitableMatch, 0.0)], [UnmatchedRow(0, l, NoMatchingBankEntry, 0.0)])
  {
    var b := Rec(Jan5, 100.0, "rent");
    var l := Rec(Jan5, 105.0, "rent");
    assert !ShouldMatch(sim, b, l);
    assert Scan(sim, b, [l], {}, 1) == Best(0.0, None);
    assert Greedy(sim, [b], [l], 1) == Progress([], [UnmatchedRow(0, b, NoSuitableMatch, 0.0)], {});
    assert Leftover([l], {}, 1) == [UnmatchedRow(0, l, NoMatchingBankEntry, 0.0)];
  }

  /** Descriptions that are always fully similar. */
  function AlwaysSimilar(a: string, b: string): Score
  {
    100.0
  }

  /** Two bank rows compete for one ledger row (confidence 90 for the first,
      70 for the second): whichever comes first in bank order claims it, and
      the other is left unmatched although it alone would have matched. */
  lemma GreedyOrderDecides()
    ensures var l := Rec(0, 50.0, "rent");
            var strong := Rec(1, 50.0, "rent");
            var weak := Rec(1, 50.5, "rent");
            && Reconciliation(AlwaysSimilar, [strong, weak], [l])
                 == Outcome([MatchRow(0, 0, strong, l, 90.0)], [UnmatchedRow(1, weak, NoSuitableMatch, 0.0)], [])
            && Reconciliation(AlwaysSimilar, [weak, strong], [l])
                 == Outcome([MatchRow(0, 0, weak, l, 70.0)], [UnmatchedRow(1, strong, NoSuitableMatch, 0.0)], [])
            && Reconciliation(AlwaysSimilar, [weak], [l])
                 == Outcome([MatchRow(0, 0, weak, l, 70.0)], [], [])
  {
    var l := Rec(0, 50.0, "rent");
    var strong := Rec(1, 50.0, "rent");
    var weak := Rec(1, 50.5, "rent");
    assert Confidence(AlwaysSimilar, strong, l) == 90.0;
    assert Confidence(AlwaysSimilar, weak, l) == 70.0;
    assert Scan(AlwaysSimilar, strong, [l], {}, 1) == Best(90.0, Some(0));
    assert Scan(AlwaysSimilar, weak, [l], {}, 1) == Best(70.0, Some(0));
    assert Scan(AlwaysSimilar, strong, [l], {0}, 1) == Best(0.0, None);
    assert Scan(AlwaysSimilar, weak, [l], {0}, 1) == Best(0.0, None);
    assert Greedy(AlwaysSimilar, [strong, weak], [l], 1) == Progress([MatchRow(0, 0, strong, l, 90.0)], [], {0});
    assert Greedy(AlwaysSimilar, [strong, weak], [l], 2)
        == Progress([MatchRow(0, 0, strong, l, 90.0)], [UnmatchedRow(1, weak, NoSuitableMatch, 0.0)], {0});
    assert Greedy(AlwaysSimilar, [weak, strong], [l], 1) == Progress([MatchRow(0, 0, weak, l, 70.0)], [], {0});
    assert Greedy(AlwaysSimilar, [weak, strong], [l], 2)
        == Progress([MatchRow(0, 0, weak, l, 70.0)], [UnmatchedRow(1, strong, NoSuitableMatch, 0.0)], {0});
    assert Greedy(AlwaysSimilar, [weak], [l], 1) == Progress([MatchRow(0, 0, weak, l, 70.0)], [], {0});
    assert Leftover([l], {0}, 1) == [];
  }

  /** Two equally good ledger rows: the strict comparison keeps the first,
      and the second is reported as unmatched. */
  lemma TieGoesToFirstLedgerRow()
    ensures var b := Rec(3, 20.0, "fee");
            var l := Rec(4, 20.0, "fee");
            Reconciliation(AlwaysSimilar, [b], [l, l])
              == Outcome([MatchRow(0, 0, b, l, 90.0)], [], [UnmatchedRow(1, l, NoMatchingBankEntry, 0.0)])
  {
    var b := Rec(3, 20.0, "fee");
    var l := Rec(4, 20.0, "fee");
    assert Confidence(AlwaysSimilar, b, l) == 90.0;
    assert Scan(AlwaysSimilar, b, [l, l], {}, 1) == Best(90.0, Some(0));
    assert Scan(AlwaysSimilar, b, [l, l], {}, 2) == Best(90.0, Some(0));
    assert Greedy(AlwaysSimilar, [b], [l, l], 1) == Progress([MatchRow(0, 0, b, l, 90.0)], [], {0});
    assert Leftover([l, l], {0}, 1) == [];
    assert Leftover([l, l], {0}, 2) == [UnmatchedRow(1, l, NoMatchingBankEntry, 0.0)];
  }
}
