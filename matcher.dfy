/** The greedy one-to-one assignment: a functional specification of the two
    scans and the final sweep, and the method that runs them with loops and a
    mutable set of used ledger positions. */
module Matcher {
  import opened Scoring

  datatype Option<T> = None | Some(value: T)

  /** A matched pair. The positions of the two records in their tables are
      kept beside the copied fields. */
  datatype MatchRow = MatchRow(bankIndex: nat, ledgerIndex: nat, bank: Rec, ledger: Rec, confidence: real)

  /** An unmatched entry from either table, with its position in that table. */
  datatype UnmatchedRow = UnmatchedRow(index: nat, rec: Rec, reason: string, confidence: real)

  /** The three result tables. */
  datatype Outcome = Outcome(matched: seq<MatchRow>, unmatchedBank: seq<UnmatchedRow>, unmatchedLedger: seq<UnmatchedRow>)

  const NoSuitableMatch: string := "No suitable match"
  const NoMatchingBankEntry: string := "No matching bank entry"

  /** The running best of the inner scan: best_conf and best_j. */
  datatype Best = Best(conf: real, index: Option<nat>)

  /** State of the outer scan after some bank rows: the matches and
      unmatched-bank entries emitted so far and the used ledger positions. */
  datatype Progress = Progress(matched: seq<MatchRow>, unmatchedBank: seq<UnmatchedRow>, used: set<nat>)

  // ---------------------------------------------------------------------
  // Inner scan: the best unused eligible ledger row for one bank row
  // ---------------------------------------------------------------------

  /** best_conf and best_j after the inner loop has looked at ledger[..n]:
      used rows are skipped, and an eligible row replaces the best only when
      its confidence is strictly higher. */
  function Scan(sim: Similarity, b: Rec, ledger: seq<Rec>, used: set<nat>, n: nat): (r: Best)
    requires n <= |ledger|
    ensures r.index.None? ==> r.conf == 0.0
    ensures r.index.Some? ==> r.index.value < n && r.index.value !in used
  {
    if n == 0 then Best(0.0, None)
    else
      var r := Scan(sim, b, ledger, used, n - 1);
      var j := n - 1;
      if j in used then r
      else if ShouldMatch(sim, b, ledger[j]) && Confidence(sim, b, ledger[j]) > r.conf
      then Best(Confidence(sim, b, ledger[j]), Some(j))
      else r
  }

  /** Ledger row k is a candidate for bank row b: in range, not used, eligible. */
  predicate Candidate(sim: Similarity, b: Rec, ledger: seq<Rec>, used: set<nat>, k: int)
  {
    0 <= k < |ledger| && k !in used && ShouldMatch(sim, b, ledger[k])
  }

  /** j is the arg-max of confidence over the candidates, and the lowest such
      position when several share the maximum. */
  ghost predicate IsBest(sim: Similarity, b: Rec, ledger: seq<Rec>, used: set<nat>, j: int)
  {
    && Candidate(sim, b, ledger, used, j)
    && (forall k :: Candidate(sim, b, ledger, used, k) ==>
          Confidence(sim, b, ledger[k]) <= Confidence(sim, b, ledger[j]))
    && (forall k :: Candidate(sim, b, ledger, used, k) && k < j ==>
          Confidence(sim, b, ledger[k]) < Confidence(sim, b, ledger[j]))
  }

  /** No unused ledger row is eligible for b. */
  ghost predicate NoCandidate(sim: Similarity, b: Rec, ledger: seq<Rec>, used: set<nat>)
  {
    forall k :: !Candidate(sim, b, ledger, used, k)
  }

  /** A row the inner scan settles on is an unused eligible row, and the
      best score kept is that row's confidence. */
  lemma {:induction false} ScanChoiceIsCandidate(sim: Similarity, b: Rec, ledger: seq<Rec>, used: set<nat>, n: nat, r: Best)
    requires n <= |ledger| && r == Scan(sim, b, ledger, used, n)
    ensures r.index.Some? ==>
      Candidate(sim, b, ledger, used, r.index.value) && r.conf == Confidence(sim, b, ledger[r.index.value])
  {
    if n > 0 {
      ScanChoiceIsCandidate(sim, b, ledger, used, n - 1, Scan(sim, b, ledger, used, n - 1));
    }
  }

  /** What the inner scan found in ledger[..n]. */
  lemma {:induction false} ScanIsArgMax(sim: Similarity, b: Rec, ledger: seq<Rec>, used: set<nat>, n: nat, r: Best)
    requires n <= |ledger| && r == Scan(sim, b, ledger, used, n)
    ensures r.index.None? ==> forall k :: 0 <= k < n ==> !Candidate(sim, b, ledger, used, k)
    ensures r.index.Some? ==>
      forall k :: 0 <= k < n && Candidate(sim, b, ledger, used, k) ==>
        && Confidence(sim, b, ledger[k]) <= r.conf
        && (k < r.index.value ==> Confidence(sim, b, ledger[k]) < r.conf)
  {
    if n > 0 {
      var q := Scan(sim, b, ledger, used, n - 1);
      ScanIsArgMax(sim, b, ledger, used, n - 1, q);
      var j := n - 1;
      var c := Confidence(sim, b, ledger[j]);
      if j in used {
        assert r == q;
        assert !Candidate(sim, b, ledger, used, j);
      } else if ShouldMatch(sim, b, ledger[j]) && c > q.conf {
        assert r == Best(c, Some(j));
        forall k | 0 <= k < j && Candidate(sim, b, ledger, used, k)
          ensures Confidence(sim, b, ledger[k]) < c
        {
          assert q.index.Some?;
        }
      } else if ShouldMatch(sim, b, ledger[j]) {
        assert r == q;
        EligibleConfidenceFloor(sim, b, ledger[j]);
        assert q.index.Some?;
      } else {
        assert r == q;
        assert !Candidate(sim, b, ledger, used, j);
      }
    }
  }

  /** The choice of the full inner scan. */
  function BestCandidate(sim: Similarity, b: Rec, ledger: seq<Rec>, used: set<nat>): Option<nat>
  {
    Scan(sim, b, ledger, used, |ledger|).index
  }

  /** The arg-max with lowest-position tie-break names at most one row. */
  lemma IsBestUnique(sim: Similarity, b: Rec, ledger: seq<Rec>, used: set<nat>, j1: int, j2: int)
    requires IsBest(sim, b, ledger, used, j1) && IsBest(sim, b, ledger, used, j2)
    ensures j1 == j2
  {
  }

  /** The full inner scan picks the arg-max with first-wins ties, and it finds
      nothing exactly when no unused row is eligible. */
  lemma BestCandidateSpec(sim: Similarity, b: Rec, ledger: seq<Rec>, used: set<nat>)
    ensures BestCandidate(sim, b, ledger, used).None? <==> NoCandidate(sim, b, ledger, used)
    ensures forall j :: BestCandidate(sim, b, ledger, used) == Some(j) <==> IsBest(sim, b, ledger, used, j)
  {
    ScanIsArgMax(sim, b, ledger, used, |ledger|, Scan(sim, b, ledger, used, |ledger|));
    ScanChoiceIsCandidate(sim, b, ledger, used, |ledger|, Scan(sim, b, ledger, used, |ledger|));
    var c := BestCandidate(sim, b, ledger, used);
    if c.Some? {
      assert IsBest(sim, b, ledger, used, c.value);
      forall j | IsBest(sim, b, ledger, used, j) ensures j == c.value {
        IsBestUnique(sim, b, ledger, used, j, c.value);
      }
    }
  }

  // ---------------------------------------------------------------------
  // Outer scan and final sweep
  // ---------------------------------------------------------------------

  /** The state after the outer loop has processed bank[..n]. A bank row with
      a candidate is matched with the best one, recording the winning score,
      and that ledger row becomes used; otherwise it is unmatched. */
  function Greedy(sim: Similarity, bank: seq<Rec>, ledger: seq<Rec>, n: nat): (p: Progress)
    requires n <= |bank|
    ensures |p.matched| + |p.unmatchedBank| == n
  {
    if n == 0 then Progress([], [], {})
    else
      var p := Greedy(sim, bank, ledger, n - 1);
      var i := n - 1;
      var best := Scan(sim, bank[i], ledger, p.used, |ledger|);
      match best.index
      case Some(j) =>
        p.(matched := p.matched + [MatchRow(i, j, bank[i], ledger[j], best.conf)], used := p.used + {j})
      case None =>
        p.(unmatchedBank := p.unmatchedBank + [UnmatchedRow(i, bank[i], NoSuitableMatch, 0.0)])
  }

  /** The unmatched-ledger entries for the rows of ledger[..n] not in used. */
  function Leftover(ledger: seq<Rec>, used: set<nat>, n: nat): (rows: seq<UnmatchedRow>)
    requires n <= |ledger|
    ensures |rows| <= n
    ensures forall k :: 0 <= k < |rows| ==> rows[k].index < n
  {
    if n == 0 then []
    else if n - 1 in used then Leftover(ledger, used, n - 1)
    else Leftover(ledger, used, n - 1) + [UnmatchedRow(n - 1, ledger[n - 1], NoMatchingBankEntry, 0.0)]
  }

  /** The complete result of reconciling bank against ledger. */
  function Reconciliation(sim: Similarity, bank: seq<Rec>, ledger: seq<Rec>): (o: Outcome)
    ensures |o.matched| + |o.unmatchedBank| == |bank|
  {
    var p := Greedy(sim, bank, ledger, |bank|);
    Outcome(p.matched, p.unmatchedBank, Leftover(ledger, p.used, |ledger|))
  }

  // ---------------------------------------------------------------------
  // The engine itself
  // ---------------------------------------------------------------------

  /** reconcile: for each bank row in order, scan the unused ledger rows for
      the eligible one of strictly highest confidence and claim it; then list
      every ledger row never claimed. */
  method Reconcile(sim: Similarity, bank: seq<Rec>, ledger: seq<Rec>)
    returns (matched: seq<MatchRow>, unmatchedBank: seq<UnmatchedRow>, unmatchedLedger: seq<UnmatchedRow>)
    ensures Outcome(matched, unmatchedBank, unmatchedLedger) == Reconciliation(sim, bank, ledger)
  {
    matched := [];
    unmatchedBank := [];
    var used: set<nat> := {};

    for i := 0 to |bank|
      invariant Progress(matched, unmatchedBank, used) == Greedy(sim, bank, ledger, i)
    {
      var b := bank[i];
      var bestConf: real := 0.0;
      var bestJ: Option<nat> := None;
      for j := 0 to |ledger|
        invariant Best(bestConf, bestJ) == Scan(sim, b, ledger, used, j)
      {
        if j in used {
          continue;
        }
        if ShouldMatch(sim, b, ledger[j]) {
          var conf := Confidence(sim, b, ledger[j]);
          if conf > bestConf {
            bestConf, bestJ := conf, Some(j);
          }
        }
      }
      if bestJ.Some? {
        var l := ledger[bestJ.value];
        matched := matched + [MatchRow(i, bestJ.value, b, l, bestConf)];
        used := used + {bestJ.value};
      } else {
        unmatchedBank := unmatchedBank + [UnmatchedRow(i, b, NoSuitableMatch, 0.0)];
      }
    }

    unmatchedLedger := [];
    for j := 0 to |ledger|
      invariant unmatchedLedger == Leftover(ledger, used, j)
    {
      if j !in used {
        unmatchedLedger := unmatchedLedger + [UnmatchedRow(j, ledger[j], NoMatchingBankEntry, 0.0)];
      }
    }
  }
}
