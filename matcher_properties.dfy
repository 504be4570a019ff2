/** What the greedy assignment guarantees: both tables are partitioned, ledger
    rows are used at most once, every match passes the thresholds and is the
    best unused candidate at its turn, and unmatched entries carry fixed
    reasons and a zero score. */
module MatcherProperties {
  import opened Scoring
  import opened Matcher

  // ---------------------------------------------------------------------
  // Views of the result tables as sets of positions
  // ---------------------------------------------------------------------

  /** The members of used that lie below n. */
  function UsedBelow(used: set<nat>, n: nat): (r: set<nat>)
    ensures forall j :: j in r <==> j in used && j < n
  {
    if n == 0 then {}
    else UsedBelow(used, n - 1) + (if n - 1 in used then {n - 1} else {})
  }

  /** The bank positions of the matches. */
  function BankIndices(ms: seq<MatchRow>): set<nat>
  {
    set k | 0 <= k < |ms| :: ms[k].bankIndex
  }

  /** The ledger positions of the matches. */
  function LedgerIndices(ms: seq<MatchRow>): set<nat>
  {
    set k | 0 <= k < |ms| :: ms[k].ledgerIndex
  }

  /** The table positions of the unmatched entries. */
  function RowIndices(us: seq<UnmatchedRow>): set<nat>
  {
    set k | 0 <= k < |us| :: us[k].index
  }

  /** The ledger positions claimed by matches of bank rows before position i. */
  function UsedBefore(ms: seq<MatchRow>, i: nat): set<nat>
  {
    if ms == [] then {}
    else
      var last := ms[|ms| - 1];
      UsedBefore(ms[..|ms| - 1], i) + (if last.bankIndex < i then {last.ledgerIndex} else {})
  }

  /** Matches listed in strictly increasing bank order. */
  ghost predicate InBankOrder(ms: seq<MatchRow>)
  {
    forall k, k' :: 0 <= k < k' < |ms| ==> ms[k].bankIndex < ms[k'].bankIndex
  }

  /** Unmatched entries listed in strictly increasing table order. */
  ghost predicate InTableOrder(us: seq<UnmatchedRow>)
  {
    forall k, k' :: 0 <= k < k' < |us| ==> us[k].index < us[k'].index
  }

  /** Every position below n lies in exactly one of a and b, and neither
      holds any other value. */
  ghost predicate SplitsPositions(n: nat, a: set<nat>, b: set<nat>)
  {
    && (forall i :: 0 <= i < n ==> (i in a <==> i !in b))
    && (forall i :: i in a ==> i < n)
    && (forall i :: i in b ==> i < n)
  }

  lemma BankIndicesAppend(ms: seq<MatchRow>, r: MatchRow)
    ensures BankIndices(ms + [r]) == BankIndices(ms) + {r.bankIndex}
  {
    var ms' := ms + [r];
    assert ms'[|ms|] == r;
    forall x | x in BankIndices(ms) ensures x in BankIndices(ms') {
      var k :| 0 <= k < |ms| && ms[k].bankIndex == x;
      assert ms'[k] == ms[k];
    }
  }

  lemma LedgerIndicesAppend(ms: seq<MatchRow>, r: MatchRow)
    ensures LedgerIndices(ms + [r]) == LedgerIndices(ms) + {r.ledgerIndex}
  {
    var ms' := ms + [r];
    assert ms'[|ms|] == r;
    forall x | x in LedgerIndices(ms) ensures x in LedgerIndices(ms') {
      var k :| 0 <= k < |ms| && ms[k].ledgerIndex == x;
      assert ms'[k] == ms[k];
    }
  }

  lemma RowIndicesAppend(us: seq<UnmatchedRow>, r: UnmatchedRow)
    ensures RowIndices(us + [r]) == RowIndices(us) + {r.index}
  {
    var us' := us + [r];
    assert us'[|us|] == r;
    forall x | x in RowIndices(us) ensures x in RowIndices(us') {
      var k :| 0 <= k < |us| && us[k].index == x;
      assert us'[k] == us[k];
    }
  }

  /** A match appended for bank row r.bankIndex does not change what was used
      before any earlier or equal bank position. */
  lemma UsedBeforeAppend(ms: seq<MatchRow>, r: MatchRow, i: nat)
    requires i <= r.bankIndex
    ensures UsedBefore(ms + [r], i) == UsedBefore(ms, i)
  {
  }

  /** When every match so far is for a bank row before i, everything it used
      was used before i. */
  lemma {:induction false} UsedBeforeAll(ms: seq<MatchRow>, i: nat)
    requires forall k :: 0 <= k < |ms| ==> ms[k].bankIndex < i
    ensures UsedBefore(ms, i) == LedgerIndices(ms)
  {
    if ms != [] {
      var front := ms[..|ms| - 1];
      assert ms == front + [ms[|ms| - 1]];
      UsedBeforeAll(front, i);
      LedgerIndicesAppend(front, ms[|ms| - 1]);
    }
  }

  /** No two matches claim the same ledger position. */
  ghost predicate DistinctLedger(ms: seq<MatchRow>)
  {
    forall k, k' :: 0 <= k < k' < |ms| ==> ms[k].ledgerIndex != ms[k'].ledgerIndex
  }

  /** A match copies its two records from the tables, passes the eligibility
      test and records their confidence. */
  ghost predicate MatchRowOk(sim: Similarity, bank: seq<Rec>, ledger: seq<Rec>, m: MatchRow)
  {
    && m.bankIndex < |bank| && m.bank == bank[m.bankIndex]
    && m.ledgerIndex < |ledger| && m.ledger == ledger[m.ledgerIndex]
    && ShouldMatch(sim, m.bank, m.ledger)
    && m.confidence == Confidence(sim, m.bank, m.ledger)
  }

  /** An unmatched entry copies its record from its table and carries the
      given reason with a zero confidence. */
  ghost predicate UnmatchedRowOk(table: seq<Rec>, reason: string, u: UnmatchedRow)
  {
    u.index < |table| && u.rec == table[u.index] && u.reason == reason && u.confidence == 0.0
  }

  lemma InBankOrderAppend(ms: seq<MatchRow>, r: MatchRow)
    requires InBankOrder(ms)
    requires forall k :: 0 <= k < |ms| ==> ms[k].bankIndex < r.bankIndex
    ensures InBankOrder(ms + [r])
  {
  }

  lemma InTableOrderAppend(us: seq<UnmatchedRow>, u: UnmatchedRow)
    requires InTableOrder(us)
    requires forall k :: 0 <= k < |us| ==> us[k].index < u.index
    ensures InTableOrder(us + [u])
  {
  }

  lemma DistinctLedgerAppend(ms: seq<MatchRow>, r: MatchRow)
    requires DistinctLedger(ms)
    requires r.ledgerIndex !in LedgerIndices(ms)
    ensures DistinctLedger(ms + [r])
  {
  }

  // ---------------------------------------------------------------------
  // Invariants of the outer scan, one concern per lemma
  // ---------------------------------------------------------------------

  /** One turn of the outer scan: bank row n-1 either claims the ledger row
      the inner scan chose, recording its confidence, or is recorded as
      unmatched. */
  lemma GreedyStep(sim: Similarity, bank: seq<Rec>, ledger: seq<Rec>, n: nat) returns (q: Progress, choice: Option<nat>, conf: real)
    requires 0 < n <= |bank|
    ensures q == Greedy(sim, bank, ledger, n - 1)
    ensures choice == BestCandidate(sim, bank[n - 1], ledger, q.used)
    ensures choice.Some? ==>
      && choice.value < |ledger| && choice.value !in q.used
      && Greedy(sim, bank, ledger, n)
           == q.(matched := q.matched + [MatchRow(n - 1, choice.value, bank[n - 1], ledger[choice.value], conf)],
                 used := q.used + {choice.value})
      && ShouldMatch(sim, bank[n - 1], ledger[choice.value])
      && conf == Confidence(sim, bank[n - 1], ledger[choice.value])
    ensures choice.None? ==>
      Greedy(sim, bank, ledger, n) == q.(unmatchedBank := q.unmatchedBank + [UnmatchedRow(n - 1, bank[n - 1], NoSuitableMatch, 0.0)])
  {
    q := Greedy(sim, bank, ledger, n - 1);
    var best := Scan(sim, bank[n - 1], ledger, q.used, |ledger|);
    ScanChoiceIsCandidate(sim, bank[n - 1], ledger, q.used, |ledger|, best);
    choice, conf := best.index, best.conf;
  }

  /** Rows emitted after n bank rows refer to bank positions below n. */
  lemma {:induction false} GreedyBounds(sim: Similarity, bank: seq<Rec>, ledger: seq<Rec>, n: nat, p: Progress)
    requires n <= |bank| && p == Greedy(sim, bank, ledger, n)
    ensures forall k :: 0 <= k < |p.matched| ==> p.matched[k].bankIndex < n
    ensures forall k :: 0 <= k < |p.unmatchedBank| ==> p.unmatchedBank[k].index < n
  {
    if n > 0 {
      var q, choice, conf := GreedyStep(sim, bank, ledger, n);
      GreedyBounds(sim, bank, ledger, n - 1, q);
    }
  }

  /** The used set is exactly the ledger side of the matches, and it holds
      ledger positions only. */
  lemma {:induction false} GreedyUsed(sim: Similarity, bank: seq<Rec>, ledger: seq<Rec>, n: nat, p: Progress)
    requires n <= |bank| && p == Greedy(sim, bank, ledger, n)
    ensures p.used == LedgerIndices(p.matched)
    ensures forall j :: j in p.used ==> j < |ledger|
  {
    if n > 0 {
      var q, choice, conf := GreedyStep(sim, bank, ledger, n);
      GreedyUsed(sim, bank, ledger, n - 1, q);
      if choice.Some? {
        var j := choice.value;
        LedgerIndicesAppend(q.matched, MatchRow(n - 1, j, bank[n - 1], ledger[j], conf));
      }
    }
  }

  /** No two matches share a ledger position, so there are as many used
      positions as matches. */
  lemma {:induction false} GreedyOneToOne(sim: Similarity, bank: seq<Rec>, ledger: seq<Rec>, n: nat, p: Progress)
    requires n <= |bank| && p == Greedy(sim, bank, ledger, n)
    ensures DistinctLedger(p.matched)
    ensures |p.used| == |p.matched|
  {
    if n > 0 {
      var q, choice, conf := GreedyStep(sim, bank, ledger, n);
      GreedyUsed(sim, bank, ledger, n - 1, q);
      GreedyOneToOne(sim, bank, ledger, n - 1, q);
      if choice.Some? {
        var j := choice.value;
        DistinctLedgerAppend(q.matched, MatchRow(n - 1, j, bank[n - 1], ledger[j], conf));
      }
    }
  }

  /** After n bank rows, matches and unmatched-bank entries are each listed
      in bank order. */
  lemma {:induction false} GreedyBankOrder(sim: Similarity, bank: seq<Rec>, ledger: seq<Rec>, n: nat, p: Progress)
    requires n <= |bank| && p == Greedy(sim, bank, ledger, n)
    ensures InBankOrder(p.matched)
    ensures InTableOrder(p.unmatchedBank)
  {
    if n > 0 {
      var q, choice, conf := GreedyStep(sim, bank, ledger, n);
      GreedyBounds(sim, bank, ledger, n - 1, q);
      GreedyBankOrder(sim, bank, ledger, n - 1, q);
      if choice.Some? {
        var j := choice.value;
        InBankOrderAppend(q.matched, MatchRow(n - 1, j, bank[n - 1], ledger[j], conf));
      } else {
        InTableOrderAppend(q.unmatchedBank, UnmatchedRow(n - 1, bank[n - 1], NoSuitableMatch, 0.0));
      }
    }
  }

  /** Bank positions before n are split between matches and unmatched-bank
      entries, each position in exactly one of the two. */
  lemma {:induction false} GreedyBankSplit(sim: Similarity, bank: seq<Rec>, ledger: seq<Rec>, n: nat, p: Progress)
    requires n <= |bank| && p == Greedy(sim, bank, ledger, n)
    ensures SplitsPositions(n, BankIndices(p.matched), RowIndices(p.unmatchedBank))
  {
    if n > 0 {
      var q, choice, conf := GreedyStep(sim, bank, ledger, n);
      GreedyBankSplit(sim, bank, ledger, n - 1, q);
      if choice.Some? {
        var j := choice.value;
        BankIndicesAppend(q.matched, MatchRow(n - 1, j, bank[n - 1], ledger[j], conf));
      } else {
        RowIndicesAppend(q.unmatchedBank, UnmatchedRow(n - 1, bank[n - 1], NoSuitableMatch, 0.0));
      }
    }
  }

  /** Every row copies its records from the tables; a match is eligible and
      records its own confidence; an unmatched-bank entry carries the fixed
      reason and zero. */
  lemma {:induction false} GreedyRows(sim: Similarity, bank: seq<Rec>, ledger: seq<Rec>, n: nat, p: Progress)
    requires n <= |bank| && p == Greedy(sim, bank, ledger, n)
    ensures forall k :: 0 <= k < |p.matched| ==> MatchRowOk(sim, bank, ledger, p.matched[k])
    ensures forall k :: 0 <= k < |p.unmatchedBank| ==> UnmatchedRowOk(bank, NoSuitableMatch, p.unmatchedBank[k])
  {
    if n > 0 {
      var q, choice, conf := GreedyStep(sim, bank, ledger, n);
      GreedyRows(sim, bank, ledger, n - 1, q);
      if choice.Some? {
        var j := choice.value;
        assert MatchRowOk(sim, bank, ledger, MatchRow(n - 1, j, bank[n - 1], ledger[j], conf));
      } else {
        assert UnmatchedRowOk(bank, NoSuitableMatch, UnmatchedRow(n - 1, bank[n - 1], NoSuitableMatch, 0.0));
      }
    }
  }

  /** Each match is what the inner scan chose at its bank row's turn, given
      the ledger rows used by the earlier matches. */
  lemma {:induction false} GreedyChoiceMatched(sim: Similarity, bank: seq<Rec>, ledger: seq<Rec>, n: nat, p: Progress)
    requires n <= |bank| && p == Greedy(sim, bank, ledger, n)
    ensures forall k :: 0 <= k < |p.matched| ==>
      BestCandidate(sim, p.matched[k].bank, ledger, UsedBefore(p.matched, p.matched[k].bankIndex)) == Some(p.matched[k].ledgerIndex)
  {
    if n > 0 {
      var q, choice, conf := GreedyStep(sim, bank, ledger, n);
      GreedyChoiceMatched(sim, bank, ledger, n - 1, q);
      var i := n - 1;
      if choice.Some? {
        var j := choice.value;
        var r := MatchRow(i, j, bank[i], ledger[j], conf);
        assert p.matched == q.matched + [r];
        GreedyBounds(sim, bank, ledger, n - 1, q);
        assert UsedBefore(q.matched, i) == q.used by {
          GreedyUsed(sim, bank, ledger, n - 1, q);
          UsedBeforeAll(q.matched, i);
        }
        UsedBeforeAppend(q.matched, r, i);
        forall k | 0 <= k < |q.matched|
          ensures BestCandidate(sim, p.matched[k].bank, ledger, UsedBefore(p.matched, p.matched[k].bankIndex)) == Some(p.matched[k].ledgerIndex)
        {
          assert p.matched[k] == q.matched[k];
          UsedBeforeAppend(q.matched, r, q.matched[k].bankIndex);
        }
        assert p.matched[|q.matched|] == r;
      }
    }
  }

  /** An unmatched bank row is one for which the inner scan found nothing at
      its turn, given the ledger rows used by the earlier matches. */
  lemma {:induction false} GreedyChoiceUnmatched(sim: Similarity, bank: seq<Rec>, ledger: seq<Rec>, n: nat, p: Progress)
    requires n <= |bank| && p == Greedy(sim, bank, ledger, n)
    ensures forall k :: 0 <= k < |p.unmatchedBank| ==>
      BestCandidate(sim, p.unmatchedBank[k].rec, ledger, UsedBefore(p.matched, p.unmatchedBank[k].index)) == None
  {
    if n > 0 {
      var q, choice, conf := GreedyStep(sim, bank, ledger, n);
      GreedyChoiceUnmatched(sim, bank, ledger, n - 1, q);
      GreedyBounds(sim, bank, ledger, n - 1, q);
      var i := n - 1;
      if choice.Some? {
        var j := choice.value;
        var r := MatchRow(i, j, bank[i], ledger[j], conf);
        assert p.matched == q.matched + [r];
        forall k | 0 <= k < |p.unmatchedBank|
          ensures BestCandidate(sim, p.unmatchedBank[k].rec, ledger, UsedBefore(p.matched, p.unmatchedBank[k].index)) == None
        {
          UsedBeforeAppend(q.matched, r, p.unmatchedBank[k].index);
        }
      } else {
        var u := UnmatchedRow(i, bank[i], NoSuitableMatch, 0.0);
        assert p.unmatchedBank == q.unmatchedBank + [u];
        assert UsedBefore(q.matched, i) == q.used by {
          GreedyUsed(sim, bank, ledger, n - 1, q);
          UsedBeforeAll(q.matched, i);
        }
        forall k | 0 <= k < |p.unmatchedBank|
          ensures BestCandidate(sim, p.unmatchedBank[k].rec, ledger, UsedBefore(p.matched, p.unmatchedBank[k].index)) == None
        {
          if k < |q.unmatchedBank| {
            assert p.unmatchedBank[k] == q.unmatchedBank[k];
          } else {
            assert p.unmatchedBank[k] == u;
          }
        }
      }
    }
  }

  // ---------------------------------------------------------------------
  // The final sweep
  // ---------------------------------------------------------------------

  /** The sweep lists exactly the unused rows of ledger[..n], in order, with
      the fixed reason and zero. */
  lemma {:induction false} LeftoverExact(ledger: seq<Rec>, used: set<nat>, n: nat, rows: seq<UnmatchedRow>)
    requires n <= |ledger| && rows == Leftover(ledger, used, n)
    ensures InTableOrder(rows)
    ensures forall j :: j in RowIndices(rows) <==> 0 <= j < n && j !in used
    ensures forall k :: 0 <= k < |rows| ==> UnmatchedRowOk(ledger, NoMatchingBankEntry, rows[k])
  {
    if n > 0 {
      var prev := Leftover(ledger, used, n - 1);
      LeftoverExact(ledger, used, n - 1, prev);
      if n - 1 !in used {
        var u := UnmatchedRow(n - 1, ledger[n - 1], NoMatchingBankEntry, 0.0);
        assert rows == prev + [u];
        RowIndicesAppend(prev, u);
        assert UnmatchedRowOk(ledger, NoMatchingBankEntry, u);
      }
    }
  }

  /** The sweep emits one entry per unused position below n. */
  lemma {:induction false} LeftoverCount(ledger: seq<Rec>, used: set<nat>, n: nat)
    requires n <= |ledger|
    ensures |Leftover(ledger, used, n)| + |UsedBelow(used, n)| == n
  {
    if n > 0 {
      LeftoverCount(ledger, used, n - 1);
      if n - 1 in used {
        assert n - 1 !in UsedBelow(used, n - 1);
      }
    }
  }

  // ---------------------------------------------------------------------
  // Properties of the complete result o of reconciling bank against ledger
  // ---------------------------------------------------------------------

  /** Every bank position produces exactly one output row, a match or an
      unmatched-bank entry, and both lists keep bank order. */
  lemma BankPartition(sim: Similarity, bank: seq<Rec>, ledger: seq<Rec>, o: Outcome)
    requires o == Reconciliation(sim, bank, ledger)
    ensures InBankOrder(o.matched)
    ensures InTableOrder(o.unmatchedBank)
    ensures SplitsPositions(|bank|, BankIndices(o.matched), RowIndices(o.unmatchedBank))
  {
    GreedyBankOrder(sim, bank, ledger, |bank|, Greedy(sim, bank, ledger, |bank|));
    GreedyBankSplit(sim, bank, ledger, |bank|, Greedy(sim, bank, ledger, |bank|));
  }

  /** No ledger position is chosen by two matches. */
  lemma LedgerUsedOnce(sim: Similarity, bank: seq<Rec>, ledger: seq<Rec>, o: Outcome)
    requires o == Reconciliation(sim, bank, ledger)
    ensures forall k, k' :: 0 <= k < |o.matched| && 0 <= k' < |o.matched| && k != k' ==>
      o.matched[k].ledgerIndex != o.matched[k'].ledgerIndex
  {
    GreedyOneToOne(sim, bank, ledger, |bank|, Greedy(sim, bank, ledger, |bank|));
  }

  /** The unmatched-ledger list is exactly the ledger positions no match
      used, in ledger order; with the matches it covers every ledger
      position once. */
  lemma LedgerPartition(sim: Similarity, bank: seq<Rec>, ledger: seq<Rec>, o: Outcome)
    requires o == Reconciliation(sim, bank, ledger)
    ensures InTableOrder(o.unmatchedLedger)
    ensures SplitsPositions(|ledger|, LedgerIndices(o.matched), RowIndices(o.unmatchedLedger))
    ensures |o.matched| + |o.unmatchedLedger| == |ledger|
  {
    var p := Greedy(sim, bank, ledger, |bank|);
    GreedyUsed(sim, bank, ledger, |bank|, p);
    GreedyOneToOne(sim, bank, ledger, |bank|, p);
    LeftoverExact(ledger, p.used, |ledger|, o.unmatchedLedger);
    LeftoverCount(ledger, p.used, |ledger|);
    assert UsedBelow(p.used, |ledger|) == p.used;
  }

  /** Every matched pair passes all three thresholds, copies its two records
      and records their confidence, which lies between 18 and 100. */
  lemma MatchesEligible(sim: Similarity, bank: seq<Rec>, ledger: seq<Rec>, o: Outcome)
    requires o == Reconciliation(sim, bank, ledger)
    ensures forall k :: 0 <= k < |o.matched| ==>
      && o.matched[k].bankIndex < |bank| && o.matched[k].bank == bank[o.matched[k].bankIndex]
      && o.matched[k].ledgerIndex < |ledger| && o.matched[k].ledger == ledger[o.matched[k].ledgerIndex]
      && AmountDelta(o.matched[k].bank, o.matched[k].ledger) <= AmountTolerance
      && DayDelta(o.matched[k].bank, o.matched[k].ledger) <= DateToleranceDays
      && sim(o.matched[k].bank.desc, o.matched[k].ledger.desc) >= DescSimThreshold
      && o.matched[k].confidence == Confidence(sim, o.matched[k].bank, o.matched[k].ledger)
      && 18.0 <= o.matched[k].confidence <= 100.0
  {
    GreedyRows(sim, bank, ledger, |bank|, Greedy(sim, bank, ledger, |bank|));
    forall k | 0 <= k < |o.matched| ensures 18.0 <= o.matched[k].confidence {
      assert MatchRowOk(sim, bank, ledger, o.matched[k]);
      EligibleConfidenceFloor(sim, o.matched[k].bank, o.matched[k].ledger);
    }
  }

  /** Greedy choice: each match is the unused eligible ledger row of highest
      confidence at its turn, the lowest position among equals; an unmatched
      bank row had no unused eligible row at its turn. */
  lemma MatchesAreGreedyBest(sim: Similarity, bank: seq<Rec>, ledger: seq<Rec>, o: Outcome)
    requires o == Reconciliation(sim, bank, ledger)
    ensures forall k :: 0 <= k < |o.matched| ==>
      IsBest(sim, o.matched[k].bank, ledger, UsedBefore(o.matched, o.matched[k].bankIndex), o.matched[k].ledgerIndex)
    ensures forall k :: 0 <= k < |o.unmatchedBank| ==>
      NoCandidate(sim, o.unmatchedBank[k].rec, ledger, UsedBefore(o.matched, o.unmatchedBank[k].index))
  {
    var p := Greedy(sim, bank, ledger, |bank|);
    GreedyChoiceMatched(sim, bank, ledger, |bank|, p);
    GreedyChoiceUnmatched(sim, bank, ledger, |bank|, p);
    forall k | 0 <= k < |o.matched|
      ensures IsBest(sim, o.matched[k].bank, ledger, UsedBefore(o.matched, o.matched[k].bankIndex), o.matched[k].ledgerIndex)
    {
      BestCandidateSpec(sim, o.matched[k].bank, ledger, UsedBefore(o.matched, o.matched[k].bankIndex));
    }
    forall k | 0 <= k < |o.unmatchedBank|
      ensures NoCandidate(sim, o.unmatchedBank[k].rec, ledger, UsedBefore(o.matched, o.unmatchedBank[k].index))
    {
      BestCandidateSpec(sim, o.unmatchedBank[k].rec, ledger, UsedBefore(o.matched, o.unmatchedBank[k].index));
    }
  }

  /** Unmatched entries copy their record and carry the fixed reason of their
      side and a zero confidence. */
  lemma UnmatchedEntriesFixed(sim: Similarity, bank: seq<Rec>, ledger: seq<Rec>, o: Outcome)
    requires o == Reconciliation(sim, bank, ledger)
    ensures forall k :: 0 <= k < |o.unmatchedBank| ==>
      && o.unmatchedBank[k].index < |bank| && o.unmatchedBank[k].rec == bank[o.unmatchedBank[k].index]
      && o.unmatchedBank[k].reason == NoSuitableMatch && o.unmatchedBank[k].confidence == 0.0
    ensures forall k :: 0 <= k < |o.unmatchedLedger| ==>
      && o.unmatchedLedger[k].index < |ledger| && o.unmatchedLedger[k].rec == ledger[o.unmatchedLedger[k].index]
      && o.unmatchedLedger[k].reason == NoMatchingBankEntry && o.unmatchedLedger[k].confidence == 0.0
  {
    var p := Greedy(sim, bank, ledger, |bank|);
    GreedyRows(sim, bank, ledger, |bank|, p);
    LeftoverExact(ledger, p.used, |ledger|, o.unmatchedLedger);
    forall k | 0 <= k < |o.unmatchedBank|
      ensures o.unmatchedBank[k].index < |bank| && o.unmatchedBank[k].rec == bank[o.unmatchedBank[k].index]
    {
      assert UnmatchedRowOk(bank, NoSuitableMatch, o.unmatchedBank[k]);
    }
    forall k | 0 <= k < |o.unmatchedLedger|
      ensures o.unmatchedLedger[k].index < |ledger| && o.unmatchedLedger[k].rec == ledger[o.unmatchedLedger[k].index]
    {
      assert UnmatchedRowOk(ledger, NoMatchingBankEntry, o.unmatchedLedger[k]);
    }
  }
}
