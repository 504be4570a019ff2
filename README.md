# Transaction reconciliation engine in Dafny

This project models the matching engine of a bank-statement reconciliation
tool. The engine takes a bank table and a ledger table of transactions, each
with a date, an amount and a description. It walks the bank rows in order.
For each bank row it looks at every ledger row not yet claimed, keeps those
that pass three thresholds, and claims the one with the strictly highest
weighted confidence. The thresholds are: amounts within 1 unit, dates within
3 days, and description similarity of at least 60. It returns three tables:

- the matched pairs with their confidence;
- the bank rows left unmatched, with reason "No suitable match";
- the ledger rows never claimed, with reason "No matching bank entry".

Files:

- `scoring.dfy` (module `Scoring`): the normalised record, the three
  threshold constants, the eligibility test `ShouldMatch` and the weighted
  score `Confidence`, with their ranges and the floor an eligible pair reaches.
  It also holds the stripping of thousands separators and rupee signs that
  happens before amounts are parsed.
- `matcher.dfy` (module `Matcher`): a functional specification of the engine
  and the method that runs it.
  - `Scan` is the inner loop, `Greedy` the outer loop, `Leftover` the final
    sweep, and `Reconciliation` combines the three.
  - `Reconcile` is the engine itself, written with the same nested `for`
    loops, `continue`, running best and mutable `used` set as the original.
    It is proved equal to `Reconciliation`.
- `matcher_properties.dfy` (module `MatcherProperties`): what the greedy
  assignment guarantees about `Reconciliation`, and so about `Reconcile`.
  - Both tables are partitioned.
  - No ledger row is used twice.
  - Every match is eligible.
  - Every match is the arg-max at its turn, and ties go to the first ledger row.
  - The unmatched rows carry fixed reasons and scores.
- `scenarios.dfy` (module `Scenarios`): small tables worked out exactly.
  They show a close match, an amount that is too far off, bank order deciding
  a contest, and a tie between ledger rows.

Conventions:

- The similarity measure (`fuzzy_score`, a partial ratio) is a parameter
  `sim` of type `(string, string) -> Score`, where a `Score` is a real
  number from 0 to 100, as rapidfuzz's `partial_ratio` returns. Nothing else
  is assumed of it, not even symmetry. It is
  always applied as `sim(bank description, ledger description)`, as in the
  source.
- Amounts are exact `real` numbers. Dates are integer day numbers, so
  `(b.Date - l.Date).days` is their difference.
- Table rows are addressed by position 0 .. n-1. Reading a CSV gives pandas
  its default `RangeIndex`, whose labels are exactly these positions.
- Output rows additionally record the position of the record (or records)
  they were built from (`bankIndex`, `ledgerIndex`, `index`). The original
  rows hold only the copied columns. The positions are what make the
  partition and one-to-one properties statable; the copied columns are
  proved equal to the table rows at those positions.

Facts about the source that the model keeps:

- The three thresholds are fixed constants (reconciliation.py:6-8); nothing
  configures them.
- The amount column is converted with a plain `astype(float)`
  (reconciliation.py:17). The engine raises no error of its own for a
  malformed amount (that conversion is left out, see below).
- The eligibility test (reconciliation.py:29) has no check of its own that
  rejects an invalid date.

## Model

| member | source | states |
|---|---|---|
| Scoring.ShouldMatch | reconciliation.py:25-33 | a pair is eligible exactly when the absolute amount difference is at most 1, the absolute day difference is at most 3, and sim(bank, ledger) is at least 60; each inequality is the source's non-strict one |
| Scoring.AmountScore | reconciliation.py:37 | the amount closeness lies in [0, 1] and is 1 exactly when the amounts are equal |
| Scoring.DateScore | reconciliation.py:38 | the date closeness lies in [0, 1] and is 1 exactly when the days are equal |
| Scoring.Confidence | reconciliation.py:35-40 | the weighted confidence always lies in [0, 100] |
| Scoring.EligibleConfidenceIsLinear | reconciliation.py:35-40 | on an eligible pair neither floor at 0 is active: confidence = 40(1 - amount delta) + 30(1 - day delta / 3) + 0.3 sim |
| Scoring.EligibleConfidenceFloor | reconciliation.py:31-40 | an eligible pair scores at least 18, so it always beats the initial best of 0 |
| Scoring.ConfidenceFullExactly | reconciliation.py:35-40 | confidence is 100 exactly when amounts agree, days agree and the similarity is 100 |
| Scoring.StripAmountSymbols | reconciliation.py:13-16 | the result contains no ',' and no rupee sign, is no longer than the input, and keeps every other character with the same multiplicity |
| Scoring.StripAmountSymbolsOne | reconciliation.py:15-16 | a single character is removed exactly when it is ',' or a rupee sign, and is kept otherwise |
| Scoring.StripAmountSymbolsAppend | reconciliation.py:13-16 | stripping a concatenation gives the concatenation of the stripped parts, so the kept characters stay in their original order |
| Scoring.StripAmountSymbolsKeepsClean | reconciliation.py:13-16 | a string without separators or rupee signs comes back unchanged |
| Matcher.Scan | reconciliation.py:52-60 | the running best over ledger[..n] is either empty with score 0, or an unused row j < n |
| Matcher.ScanChoiceIsCandidate | reconciliation.py:55-60 | a row the inner scan settles on is unused and eligible, and the best score kept is exactly its confidence |
| Matcher.ScanIsArgMax | reconciliation.py:54-60 | empty means no unused eligible row in ledger[..n]; otherwise every unused eligible row scores at most the best, and every earlier one strictly less |
| Matcher.IsBestUnique | reconciliation.py:59-60 | the arg-max with first-wins ties names a single ledger row |
| Matcher.BestCandidateSpec | reconciliation.py:52-61 | the full inner scan finds nothing exactly when no unused row is eligible, and finds j exactly when j is the highest-scoring unused eligible row, the lowest such position among equals |
| Matcher.Greedy | reconciliation.py:51-73 | after n bank rows, matches plus unmatched-bank entries number exactly n |
| Matcher.Leftover | reconciliation.py:76-82 | the sweep of ledger[..n] yields at most n rows, each for a position below n |
| Matcher.Reconciliation | reconciliation.py:42-84 | matched plus unmatched-bank rows number exactly the bank rows, the identity the summary's total relies on |
| Matcher.Reconcile | reconciliation.py:42-84 | the engine's three output lists are exactly those of the specification Reconciliation, so every property below holds of them |
| MatcherProperties.UsedBelow | reconciliation.py:76-78 | the used positions below n are exactly the members of used that are smaller than n |
| MatcherProperties.UsedBeforeAll | reconciliation.py:49-68 | once every match so far belongs to an earlier bank row, the ledger rows used before that row are all the matched ledger rows |
| MatcherProperties.GreedyStep | reconciliation.py:51-73 | one turn of the outer loop: bank row i either claims the row the inner scan chose, which is unused, in range and eligible, recording its confidence and adding it to used; or, when the scan found nothing, it is appended as unmatched with the fixed reason and 0 |
| MatcherProperties.GreedyBounds | reconciliation.py:51-73 | after n bank rows every match and every unmatched-bank entry refers to a bank position below n |
| MatcherProperties.GreedyUsed | reconciliation.py:49-68 | the used set is exactly the set of matched ledger positions, all in range |
| MatcherProperties.GreedyOneToOne | reconciliation.py:55-68 | distinct matches have distinct ledger positions, so the used set has as many elements as there are matches |
| MatcherProperties.GreedyBankOrder | reconciliation.py:51-73 | after n bank rows the matches and the unmatched-bank entries are each in strictly increasing bank order |
| MatcherProperties.GreedyBankSplit | reconciliation.py:51-73 | after n bank rows every bank position below n is either matched or unmatched, never both, and no other position appears |
| MatcherProperties.GreedyRows | reconciliation.py:57-73 | every match copies its two records, is eligible and records their confidence; every unmatched-bank entry copies its record with reason "No suitable match" and confidence 0 |
| MatcherProperties.GreedyChoiceMatched | reconciliation.py:51-68 | every match is the row the full inner scan chooses for its bank row, given the ledger rows claimed by earlier bank rows |
| MatcherProperties.GreedyChoiceUnmatched | reconciliation.py:51-73 | for every unmatched bank row the full inner scan, given the ledger rows claimed by earlier bank rows, finds nothing |
| MatcherProperties.LeftoverExact | reconciliation.py:76-82 | the sweep lists exactly the positions below n not in used, in increasing order, each copying its ledger row with reason "No matching bank entry" and confidence 0 |
| MatcherProperties.LeftoverCount | reconciliation.py:76-82 | the sweep of ledger[..n] yields exactly n minus the number of used positions below n |
| MatcherProperties.BankPartition | reconciliation.py:51-73 | every bank row yields exactly one output row, a match or an unmatched-bank entry, and both lists keep bank order |
| MatcherProperties.LedgerUsedOnce | reconciliation.py:55-68 | no ledger row is matched to two bank rows |
| MatcherProperties.LedgerPartition | reconciliation.py:76-82 | every ledger row is either matched or listed as unmatched, never both; the unmatched list keeps ledger order; and matches plus unmatched-ledger rows number the ledger rows |
| MatcherProperties.MatchesEligible | reconciliation.py:27-67 | every match copies its two records, passes the three thresholds, and records their confidence, which lies in [18, 100] |
| MatcherProperties.MatchesAreGreedyBest | reconciliation.py:51-68 | each match is the highest-confidence unused eligible ledger row at its turn, first among equals; each unmatched bank row had none |
| MatcherProperties.UnmatchedEntriesFixed | reconciliation.py:69-82 | unmatched entries copy their record and carry the fixed reason of their side and confidence 0 |
| Scenarios.ScenarioCloseMatch | reconciliation.py:42-84 | same amount one day apart with similar descriptions gives one match scoring 60 + 0.3 sim and no unmatched rows |
| Scenarios.ScenarioAmountTooFar | reconciliation.py:27-82 | amounts 5 apart never match, whatever the descriptions; both rows come out unmatched with their reasons |
| Scenarios.GreedyOrderDecides | reconciliation.py:51-68 | with one ledger row and two eligible bank rows (scores 90 and 70), the bank row that comes first claims it and the other stays unmatched, although it alone would match |
| Scenarios.TieGoesToFirstLedgerRow | reconciliation.py:59-82 | of two equally good ledger rows the first is matched and the second is reported unmatched |

## Left out

- Scoring.Confidence: computed exactly, without `round(…, 2)` and without floating point. Rounding can make two different scores equal and so change which row wins a tie; that effect is not modelled.
- Amounts and dates as floats and timestamps: amounts are exact reals, dates integer day numbers. NaN amounts and `NaT` dates, and what comparisons with them do, are not modelled. Two effects follow:
  - `Timedelta.days` rounds down, so with times of day the date test at reconciliation.py:29 is lopsided. A difference of +3 days 12 hours has `.days == 3` and passes, but −3 days 12 hours has `.days == -4` and fails. The model has whole days only, so it is symmetric.
  - Float subtraction can turn a difference that is exactly 1 in decimal into one just above the tolerance (in binary floating point 2.2 − 1.2 is 1.0000000000000002), and the source then rejects the pair. The model accepts it.
- preprocess: date parsing, the float conversion of the amount and description lower-casing and trimming are not modelled. Records are taken as already normalised. Only the removal of separators and rupee signs is modelled (`StripAmountSymbols`).
- fuzzy_score: the partial-ratio algorithm is not modelled; its result is a real-valued parameter limited to 0..100.
- Table row labels: rows are identified by position, which agrees with the default index a CSV read produces. Arbitrary pandas labels are not modelled.
- DataFrame construction: the results are lists of rows, not DataFrames, and column names are not modelled.
- export_outputs: file writing, the Excel report and the summary sheet are I/O and not modelled. Only the count identity behind its total is proved (`Matcher.Reconciliation`).
- The command-line entry point, app.py and run_all.py drive the engine with files and a user interface. They are not part of this model.
