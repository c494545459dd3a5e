/**
 * Roll numbers: a prefix followed by the student's index written with at
 * least two digits, and the eligible roster for indices 1..k.
 */
module RollNumbers {
  import opened Decimal

  /** The index part of a roll: a single "0" in front of indices below 10. */
  function PadIndex(n: nat): string {
    if n < 10 then "0" + NatToString(n) else NatToString(n)
  }

  function Roll(prefix: string, n: nat): string {
    prefix + PadIndex(n)
  }

  /** The padded index is a digit string worth n, two digits long below 10, unpadded from 10 on. */
  lemma PadIndexDigits(n: nat)
    ensures AllDigits(PadIndex(n)) && DigitsValue(PadIndex(n)) == n
    ensures n < 10 ==> |PadIndex(n)| == 2 && PadIndex(n)[0] == '0'
    ensures n >= 10 ==> |PadIndex(n)| >= 2 && PadIndex(n)[0] != '0' && PadIndex(n) == NatToString(n)
  {
    NatToStringShape(n);
    DigitsValueOfNatToString(n);
    if n < 10 {
      LeadingZero(NatToString(n));
    }
  }

  /** A roll is the prefix followed by the padded index, and the index can be read back from it. */
  lemma RollFormat(prefix: string, n: nat)
    ensures Roll(prefix, n)[..|prefix|] == prefix
    ensures Roll(prefix, n)[|prefix|..] == PadIndex(n)
    ensures AllDigits(Roll(prefix, n)[|prefix|..]) && DigitsValue(Roll(prefix, n)[|prefix|..]) == n
  {
    PadIndexDigits(n);
    assert Roll(prefix, n)[|prefix|..] == PadIndex(n);
  }

  /** Distinct indices give distinct rolls. */
  lemma RollInjective(prefix: string, n: nat, m: nat)
    requires Roll(prefix, n) == Roll(prefix, m)
    ensures n == m
  {
    RollFormat(prefix, n);
    RollFormat(prefix, m);
  }

  /** The rolls of indices 1..k, in index order: the rolls the loop generates. */
  function Candidates(prefix: string, k: int): seq<string>
    decreases k
  {
    if k <= 0 then [] else Candidates(prefix, k - 1) + [Roll(prefix, k)]
  }

  /** The elements of s that are not in the whitelist, in order. */
  function Filter(s: seq<string>, whitelist: seq<string>): seq<string>
    decreases |s|
  {
    if s == [] then []
    else Filter(s[..|s| - 1], whitelist) + (if s[|s| - 1] in whitelist then [] else [s[|s| - 1]])
  }

  /** The roster before shuffling: the rolls of indices 1..k that are not whitelisted. */
  function Eligible(prefix: string, k: int, whitelist: seq<string>): seq<string> {
    Filter(Candidates(prefix, k), whitelist)
  }

  /** Index k adds its roll to the roster unless the roll is whitelisted. */
  lemma EligibleStep(prefix: string, k: nat, whitelist: seq<string>)
    requires k >= 1
    ensures Eligible(prefix, k, whitelist) ==
      Eligible(prefix, k - 1, whitelist) + (if Roll(prefix, k) in whitelist then [] else [Roll(prefix, k)])
  {
    var c := Candidates(prefix, k - 1);
    assert (c + [Roll(prefix, k)])[..|c|] == c;
  }

  ghost function EligibleSet(prefix: string, k: int, whitelist: seq<string>): set<string> {
    set r | r in Eligible(prefix, k, whitelist)
  }

  /** r is the roll of some index 1..k and is not whitelisted. */
  ghost predicate IsEligibleRoll(prefix: string, k: int, whitelist: seq<string>, r: string) {
    r !in whitelist && exists n: nat :: 1 <= n <= k && r == Roll(prefix, n)
  }

  /** The generated rolls that are whitelisted. */
  ghost function WhitelistedRolls(prefix: string, k: int, whitelist: seq<string>): set<string> {
    set r | r in Candidates(prefix, k) && r in whitelist
  }

  /** Every element occurs at most once. */
  ghost predicate Distinct(s: seq<string>) {
    forall x :: multiset(s)[x] <= 1
  }

  /** Appending an element not yet present keeps a sequence free of repeats. */
  lemma AppendFresh(s: seq<string>, r: string)
    requires Distinct(s) && r !in s
    ensures Distinct(s + [r])
  {
    forall x ensures multiset(s + [r])[x] <= 1 {
      assert multiset(s + [r])[x] == multiset(s)[x] + multiset([r])[x];
    }
  }

  /** Without repeats, the front of a sequence has none either, and does not hold its last element. */
  lemma DistinctInit(s: seq<string>)
    requires Distinct(s) && s != []
    ensures Distinct(s[..|s| - 1]) && s[|s| - 1] !in s[..|s| - 1]
  {
    var init, last := s[..|s| - 1], s[|s| - 1];
    assert s == init + [last];
    forall x ensures multiset(init)[x] <= 1 {
      assert multiset(s)[x] == multiset(init)[x] + multiset([last])[x];
    }
    assert multiset(s)[last] == multiset(init)[last] + 1;
  }

  lemma {:induction false} CandidatesMembers(prefix: string, k: int, r: string)
    ensures r in Candidates(prefix, k) <==> exists n: nat :: 1 <= n <= k && r == Roll(prefix, n)
    decreases k
  {
    if k > 0 {
      CandidatesMembers(prefix, k - 1, r);
      if r == Roll(prefix, k) {
        assert r in Candidates(prefix, k);
      } else if exists n: nat :: 1 <= n <= k && r == Roll(prefix, n) {
        var n: nat :| 1 <= n <= k && r == Roll(prefix, n);
        assert n != k;
      }
    }
  }

  lemma {:induction false} CandidatesLength(prefix: string, k: nat)
    ensures |Candidates(prefix, k)| == k
    decreases k
  {
    if k > 0 {
      CandidatesLength(prefix, k - 1);
    }
  }

  /** The rolls of 1..k do not include the roll of a later index. */
  lemma {:induction false} LaterRollAbsent(prefix: string, k: int, m: nat)
    requires m > k
    ensures Roll(prefix, m) !in Candidates(prefix, k)
    decreases k
  {
    if k > 0 {
      LaterRollAbsent(prefix, k - 1, m);
      if Roll(prefix, m) == Roll(prefix, k) {
        RollInjective(prefix, m, k);
        assert false;
      }
    }
  }

  /** No roll is generated twice. */
  lemma {:induction false} CandidatesDistinct(prefix: string, k: int)
    ensures Distinct(Candidates(prefix, k))
    decreases k
  {
    if k > 0 {
      CandidatesDistinct(prefix, k - 1);
      LaterRollAbsent(prefix, k - 1, k);
      AppendFresh(Candidates(prefix, k - 1), Roll(prefix, k));
    }
  }

  lemma {:induction false} FilterMembers(s: seq<string>, whitelist: seq<string>, r: string)
    ensures r in Filter(s, whitelist) <==> r in s && r !in whitelist
    decreases |s|
  {
    if s != [] {
      var init := s[..|s| - 1];
      assert s == init + [s[|s| - 1]];
      FilterMembers(init, whitelist, r);
    }
  }

  lemma {:induction false} FilterDistinct(s: seq<string>, whitelist: seq<string>)
    requires Distinct(s)
    ensures Distinct(Filter(s, whitelist))
    decreases |s|
  {
    if s != [] {
      var init, last := s[..|s| - 1], s[|s| - 1];
      DistinctInit(s);
      FilterDistinct(init, whitelist);
      if last !in whitelist {
        FilterMembers(init, whitelist, last);
        AppendFresh(Filter(init, whitelist), last);
      }
    }
  }

  /** Filtering a sequence without repeats removes exactly its whitelisted elements. */
  lemma {:induction false} FilterLength(s: seq<string>, whitelist: seq<string>)
    requires Distinct(s)
    ensures |Filter(s, whitelist)| == |s| - |set x | x in s && x in whitelist|
    decreases |s|
  {
    if s != [] {
      var init, last := s[..|s| - 1], s[|s| - 1];
      DistinctInit(s);
      FilterLength(init, whitelist);
      assert s == init + [last];
      var hits, hits' := set x | x in init && x in whitelist, set x | x in s && x in whitelist;
      assert last !in hits;
      if last in whitelist {
        assert hits' == hits + {last};
      } else {
        assert hits' == hits;
      }
    }
  }

  lemma EligibleMembers(prefix: string, k: int, whitelist: seq<string>, r: string)
    ensures r in Eligible(prefix, k, whitelist) <==> IsEligibleRoll(prefix, k, whitelist, r)
  {
    FilterMembers(Candidates(prefix, k), whitelist, r);
    CandidatesMembers(prefix, k, r);
  }

  lemma EligibleDistinct(prefix: string, k: int, whitelist: seq<string>)
    ensures Distinct(Eligible(prefix, k, whitelist))
  {
    CandidatesDistinct(prefix, k);
    FilterDistinct(Candidates(prefix, k), whitelist);
  }

  /** The roster has k rolls less the generated rolls that are whitelisted. */
  lemma EligibleLength(prefix: string, k: nat, whitelist: seq<string>)
    ensures |Eligible(prefix, k, whitelist)| == k - |WhitelistedRolls(prefix, k, whitelist)|
  {
    CandidatesDistinct(prefix, k);
    CandidatesLength(prefix, k);
    FilterLength(Candidates(prefix, k), whitelist);
  }

  /** A sequence without repeats has as many distinct elements as it has elements. */
  lemma {:induction false} DistinctCardinality(s: seq<string>)
    requires Distinct(s)
    ensures |set x | x in s| == |s|
    decreases |s|
  {
    if s != [] {
      var init, last := s[..|s| - 1], s[|s| - 1];
      DistinctInit(s);
      DistinctCardinality(init);
      assert s == init + [last];
      assert (set x | x in s) == (set x | x in init) + {last};
    }
  }

  /** Two permutations of each other hold the same elements. */
  lemma SameElements(a: seq<string>, b: seq<string>)
    requires multiset(a) == multiset(b)
    ensures (set x | x in a) == (set x | x in b)
  {
    forall x ensures x in a <==> x in b {
      assert x in a <==> x in multiset(a);
      assert x in b <==> x in multiset(b);
    }
  }

  /** Any permutation of the roster holds exactly the eligible rolls, each once, k less the whitelisted ones. */
  lemma PermutedRoster(prefix: string, k: nat, whitelist: seq<string>, rolls: seq<string>)
    requires multiset(rolls) == multiset(Eligible(prefix, k, whitelist))
    ensures forall r :: r in rolls <==> IsEligibleRoll(prefix, k, whitelist, r)
    ensures Distinct(rolls)
    ensures |rolls| == k - |WhitelistedRolls(prefix, k, whitelist)|
  {
    forall r ensures r in rolls <==> IsEligibleRoll(prefix, k, whitelist, r) {
      assert r in rolls <==> r in multiset(rolls);
      EligibleMembers(prefix, k, whitelist, r);
    }
    EligibleDistinct(prefix, k, whitelist);
    EligibleLength(prefix, k, whitelist);
    assert |rolls| == |multiset(rolls)|;
  }

  /** The eligible pool, as a set, has n_stds rolls less the generated rolls that are whitelisted. */
  lemma EligibleSetSize(prefix: string, k: nat, whitelist: seq<string>)
    ensures |EligibleSet(prefix, k, whitelist)| == k - |WhitelistedRolls(prefix, k, whitelist)|
  {
    EligibleDistinct(prefix, k, whitelist);
    DistinctCardinality(Eligible(prefix, k, whitelist));
    EligibleLength(prefix, k, whitelist);
  }
}
