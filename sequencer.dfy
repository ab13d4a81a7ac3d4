/** The sequencer (lib/slug/slug.rb, next_slug_sequence and
    assign_slug_sequence): the index that makes a slug unique among the
    slugs already stored. Instance 0 of a base is the base itself, instance
    n > 0 is the base followed by "-n".

    The source asks the database for one row through a LIKE prefix query
    ordered by a numeric cast; `LikeQuerySequence` models that as written
    (see `PartialMatchSequenced`), and `NextSlugSequence` models what the
    comments and the tests promise: the first free instance. */
module Sequencer {
  import opened SlugText

  /** Instance `n` of `base`: the base itself for 0, "base-n" otherwise. */
  function Candidate(base: string, n: nat): string {
    if n == 0 then base else base + "-" + DecimalString(n)
  }

  /** `n` is the first instance of `base` that is not taken. */
  predicate IsLeastFree(base: string, existing: set<string>, n: nat) {
    && Candidate(base, n) !in existing
    && forall k: nat :: k < n ==> Candidate(base, k) in existing
  }

  /** Distinct indices give distinct slugs. */
  lemma CandidateInjective(base: string, m: nat, n: nat)
    requires Candidate(base, m) == Candidate(base, n)
    ensures m == n
  {
    if m > 0 && n > 0 {
      var c := Candidate(base, m);
      assert c[|base| + 1..] == DecimalString(m);
      assert Candidate(base, n)[|base| + 1..] == DecimalString(n);
      DecimalStringInjective(m, n);
    }
  }

  /** There is only one first free instance. */
  lemma LeastFreeUnique(base: string, existing: set<string>, m: nat, n: nat)
    requires IsLeastFree(base, existing, m) && IsLeastFree(base, existing, n)
    ensures m == n
  {
  }

  /** A subset is no larger than its superset. */
  lemma {:induction false} SubsetCardinality(a: set<string>, b: set<string>)
    requires a <= b
    ensures |a| <= |b|
  {
    if a != {} {
      var x :| x in a;
      SubsetCardinality(a - {x}, b - {x});
    }
  }

  /** Tries the base, then base-1, base-2, ..., and returns the index of the
      first one not taken. Every index it passes names a distinct taken
      slug, so it never goes beyond the number of stored slugs. */
  method NextSlugSequence(base: string, existing: set<string>) returns (n: nat)
    ensures IsLeastFree(base, existing, n)
    ensures n <= |existing|
  {
    n := 0;
    ghost var tried: set<string> := {};
    while Candidate(base, n) in existing
      invariant forall k: nat :: k < n ==> Candidate(base, k) in existing
      invariant tried <= existing && |tried| == n
      invariant forall s :: s in tried ==> exists k: nat :: k < n && s == Candidate(base, k)
      decreases |existing| - |tried|
    {
      if Candidate(base, n) in tried {
        var k: nat :| k < n && Candidate(base, n) == Candidate(base, k);
        CandidateInjective(base, n, k);
        assert false;
      }
      tried := tried + {Candidate(base, n)};
      n := n + 1;
      SubsetCardinality(tried, existing);
    }
    SubsetCardinality(tried, existing);
  }

  /** The slugs of the first `n` instances of `base`. */
  function Run(base: string, n: nat): set<string> {
    set k: nat | k < n :: Candidate(base, k)
  }

  /** With instances 0 to n - 1 stored, the next one is instance n: the
      second instance gets "-1", the thirteenth "-12". */
  lemma {:induction false} RunOfInstances(base: string, n: nat)
    ensures IsLeastFree(base, Run(base, n), n)
  {
    if Candidate(base, n) in Run(base, n) {
      var k: nat :| k < n && Candidate(base, k) == Candidate(base, n);
      CandidateInjective(base, k, n);
    }
  }

  /** A stored slug that only starts with the base is no instance of it:
      "rap-metal" does not make "rap" taken. */
  lemma PartialMatchIsFree()
    ensures IsLeastFree("rap", {"rap-metal"}, 0)
  {
  }

  /** Two stored instances of a numeric base: the third gets "-2". */
  lemma NumericBaseThird()
    ensures IsLeastFree("11111", {"11111", "11111-1"}, 2)
    ensures Candidate("11111", 2) == "11111-2"
  {
    assert DecimalString(1) == "1" && DecimalString(2) == "2";
    assert Candidate("11111", 1) == "11111-1";
    assert Candidate("11111", 2) == "11111-2";
  }

  /** Twelve stored instances: the thirteenth gets "-12". */
  lemma ThirteenthInstance(base: string)
    ensures IsLeastFree(base, Run(base, 12), 12)
    ensures Candidate(base, 12) == base + "-12"
  {
    RunOfInstances(base, 12);
    assert DecimalString(12) == "12";
  }

  // ----- the query as written -----

  /** The longest run of digits at the start of `s`. */
  function LeadingDigits(s: string): (r: string)
    ensures AllDigits(r) && |r| <= |s| && r == s[..|r|]
    ensures |r| < |s| ==> !IsDigit(s[|r|])
  {
    if s != [] && IsDigit(s[0]) then [s[0]] + LeadingDigits(s[1..]) else []
  }

  /** `row.match(/^base(-(\d+))?/)[2].to_i` for a row that starts with the
      base: the number after "base-", or 0 when no digit follows. */
  function RegexSequence(base: string, row: string): nat
    requires |base| <= |row| && row[..|base|] == base
  {
    var rest := row[|base|..];
    if |rest| >= 2 && rest[0] == '-' && IsDigit(rest[1]) then DecimalValue(LeadingDigits(rest[1..])) else 0
  }

  /** What the prefix query `slug LIKE 'base%'` may return: nothing exactly
      when no stored slug starts with the base, otherwise some stored slug
      that does. Which one the numeric ordering puts first is not modelled. */
  predicate IsLikeQueryRow(base: string, existing: set<string>, row: Option<string>) {
    match row
    case None => forall s :: s in existing ==> !(|base| <= |s| && s[..|base|] == base)
    case Some(r) => r in existing && |base| <= |r| && r[..|base|] == base
  }

  /** next_slug_sequence as written: 0 without a row, the row's number plus
      one otherwise. */
  function LikeQuerySequence(base: string, row: Option<string>): nat
    requires row.Some? ==> |base| <= |row.value| && row.value[..|base|] == base
  {
    match row
    case None => 0
    case Some(r) => RegexSequence(base, r) + 1
  }

  /** Whatever row the query returns, a stored slug that only shares a prefix
      with the base makes the query as written answer 1, so "rap" would be
      stored as "rap-1" although "rap" is free. */
  lemma PartialMatchSequenced(row: Option<string>)
    requires IsLikeQueryRow("rap", {"rap-metal"}, row)
    ensures LikeQuerySequence("rap", row) == 1
    ensures IsLeastFree("rap", {"rap-metal"}, 0)
  {
    assert "rap-metal"[..3] == "rap";
    assert row == Some("rap-metal");
    assert "rap-metal"[3..] == "-metal";
  }

  /** An instance of the base starts with the base. */
  lemma CandidatePrefix(base: string, n: nat)
    ensures |base| <= |Candidate(base, n)| && Candidate(base, n)[..|base|] == base
  {
  }

  /** The regex reads the instance number back out of an instance. */
  lemma RegexReadsInstance(base: string, n: nat)
    ensures |base| <= |Candidate(base, n)| && Candidate(base, n)[..|base|] == base
    ensures RegexSequence(base, Candidate(base, n)) == n
  {
    CandidatePrefix(base, n);
    if n > 0 {
      var c := Candidate(base, n);
      var d := DecimalString(n);
      assert c[|base|..] == "-" + d;
      assert ("-" + d)[1..] == d;
      LeadingDigitsAll(d);
      DecimalRoundTrip(n);
    }
  }

  /** Where the query as written returns the highest stored instance of the
      base, its answer is the first free instance. */
  lemma LikeQueryOnInstances(base: string, n: nat)
    requires n > 0
    ensures IsLikeQueryRow(base, Run(base, n), Some(Candidate(base, n - 1)))
    ensures LikeQuerySequence(base, Some(Candidate(base, n - 1))) == n
    ensures IsLeastFree(base, Run(base, n), n)
  {
    RunOfInstances(base, n);
    CandidatePrefix(base, n - 1);
    RegexReadsInstance(base, n - 1);
  }

  lemma {:induction false} LeadingDigitsAll(s: string)
    requires AllDigits(s)
    ensures LeadingDigits(s) == s
  {
    if s != [] {
      LeadingDigitsAll(s[1..]);
    }
  }
}
