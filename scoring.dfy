/** Record shape, matching thresholds, the pairwise eligibility test and the
    weighted confidence score of the reconciliation engine. */
module Scoring {

  /** A description similarity as returned by the fuzzy matcher: a real
      number from 0 to 100. */
  type Score = x: real | 0.0 <= x <= 100.0 witness 0.0

  /** The partial-ratio similarity of two descriptions. It is supplied by the
      caller; nothing is assumed of it beyond its range (not even symmetry),
      and it is always applied as sim(bank description, ledger description). */
  type Similarity = (string, string) -> Score

  /** A normalised record: a day number, a decimal amount and a lower-cased,
      trimmed description. */
  datatype Rec = Rec(day: int, amount: real, desc: string)

  /** One currency unit. */
  const AmountTolerance: real := 1.0
  /** Plus or minus three days. */
  const DateToleranceDays: int := 3
  /** Sixty percent similarity. */
  const DescSimThreshold: real := 60.0

  function AbsReal(x: real): (r: real)
    ensures r >= 0.0 && (r == x || r == -x)
  {
    if x < 0.0 then -x else x
  }

  function AbsInt(x: int): (r: nat)
    ensures r == x || r == -x
  {
    if x < 0 then -x else x
  }

  function Max0(x: real): (r: real)
    ensures r >= 0.0 && r >= x && (r == 0.0 || r == x)
  {
    if 0.0 < x then x else 0.0
  }

  /** The absolute difference of the two amounts. */
  function AmountDelta(b: Rec, l: Rec): real
  {
    AbsReal(b.amount - l.amount)
  }

  /** The absolute difference of the two day numbers. */
  function DayDelta(b: Rec, l: Rec): nat
  {
    AbsInt(b.day - l.day)
  }

  /** The eligibility test: each threshold is checked in turn and the first
      one that fails rejects the pair. */
  function ShouldMatch(sim: Similarity, b: Rec, l: Rec): (ok: bool)
    ensures ok <==> && AmountDelta(b, l) <= AmountTolerance
                    && DayDelta(b, l) <= DateToleranceDays
                    && sim(b.desc, l.desc) >= DescSimThreshold
  {
    if AmountDelta(b, l) > AmountTolerance then false
    else if DayDelta(b, l) > DateToleranceDays then false
    else if sim(b.desc, l.desc) < DescSimThreshold then false
    else true
  }

  /** Amount closeness, floored at 0. */
  function AmountScore(b: Rec, l: Rec): (s: real)
    ensures 0.0 <= s <= 1.0
    ensures s == 1.0 <==> b.amount == l.amount
  {
    Max0(1.0 - AmountDelta(b, l) / AmountTolerance)
  }

  /** Date closeness, floored at 0. */
  function DateScore(b: Rec, l: Rec): (s: real)
    ensures 0.0 <= s <= 1.0
    ensures s == 1.0 <==> b.day == l.day
  {
    Max0(1.0 - DayDelta(b, l) as real / DateToleranceDays as real)
  }

  /** Weighted confidence: amount 40%, date 30%, description 30%, on a 0..100
      scale, computed exactly (no rounding). */
  function Confidence(sim: Similarity, b: Rec, l: Rec): (c: real)
    ensures 0.0 <= c <= 100.0
  {
    var descScore := sim(b.desc, l.desc) / 100.0;
    (AmountScore(b, l) * 0.4 + DateScore(b, l) * 0.3 + descScore * 0.3) * 100.0
  }

  /** On an eligible pair neither floor is active, so the score is the plain
      linear blend of the three deltas. */
  lemma EligibleConfidenceIsLinear(sim: Similarity, b: Rec, l: Rec)
    requires ShouldMatch(sim, b, l)
    ensures Confidence(sim, b, l)
         == 40.0 * (1.0 - AmountDelta(b, l))
          + 30.0 * (1.0 - DayDelta(b, l) as real / 3.0)
          + 0.3 * sim(b.desc, l.desc)
  {
  }

  /** An eligible pair scores at least 18: the description term alone is at
      least 0.3 * 60. In particular it beats the initial best score of 0. */
  lemma EligibleConfidenceFloor(sim: Similarity, b: Rec, l: Rec)
    requires ShouldMatch(sim, b, l)
    ensures 18.0 <= Confidence(sim, b, l)
    ensures 0.0 < Confidence(sim, b, l)
  {
  }

  /** The top score of 100 is reached exactly when amounts and days agree and
      the descriptions are fully similar. */
  lemma ConfidenceFullExactly(sim: Similarity, b: Rec, l: Rec)
    ensures Confidence(sim, b, l) == 100.0
        <==> b.amount == l.amount && b.day == l.day && sim(b.desc, l.desc) == 100.0
  {
  }

  /** The amount column as text with every ',' thousands separator and every
      rupee sign removed, as done before the amount is parsed. */
  function StripAmountSymbols(s: string): (r: string)
    ensures |r| <= |s|
    ensures forall k :: 0 <= k < |r| ==> r[k] != ',' && r[k] != '\U{20B9}'
    ensures forall c :: c != ',' && c != '\U{20B9}' ==> multiset(r)[c] == multiset(s)[c]
  {
    if s == [] then []
    else
      var rest := StripAmountSymbols(s[1..]);
      assert s == [s[0]] + s[1..];
      if s[0] == ',' || s[0] == '\U{20B9}' then rest else [s[0]] + rest
  }

  /** A single character is dropped exactly when it is a separator or a rupee
      sign, and otherwise kept. */
  lemma StripAmountSymbolsOne(c: char)
    ensures StripAmountSymbols([c]) == if c == ',' || c == '\U{20B9}' then [] else [c]
  {
    assert [c][1..] == [];
  }

  /** Stripping works character by character: the stripped concatenation is
      the concatenation of the stripped parts, so the kept characters stay in
      their original order. */
  lemma {:induction false} StripAmountSymbolsAppend(s: string, t: string)
    ensures StripAmountSymbols(s + t) == StripAmountSymbols(s) + StripAmountSymbols(t)
  {
    if s == [] {
      assert s + t == t;
    } else {
      assert (s + t)[0] == s[0];
      assert (s + t)[1..] == s[1..] + t;
      StripAmountSymbolsAppend(s[1..], t);
    }
  }

  /** Stripping a string that has no separator or rupee sign leaves it as is. */
  lemma {:induction false} StripAmountSymbolsKeepsClean(s: string)
    requires forall k :: 0 <= k < |s| ==> s[k] != ',' && s[k] != '\U{20B9}'
    ensures StripAmountSymbols(s) == s
  {
    if s != [] {
      StripAmountSymbolsKeepsClean(s[1..]);
    }
  }
}
