/**
 * The laws a list of teams obeys when it partitions a pool of rolls into
 * full teams followed by one leftover team.
 */
module Partition {

  /** All members of all teams. */
  function UnionOf(teams: seq<set<string>>): set<string>
    decreases |teams|
  {
    if teams == [] then {} else UnionOf(teams[..|teams| - 1]) + teams[|teams| - 1]
  }

  ghost predicate PairwiseDisjoint(teams: seq<set<string>>) {
    forall i, j :: 0 <= i < j < |teams| ==> teams[i] !! teams[j]
  }

  function SumSizes(teams: seq<set<string>>): nat
    decreases |teams|
  {
    if teams == [] then 0 else SumSizes(teams[..|teams| - 1]) + |teams[|teams| - 1]|
  }

  /**
   * Every team but the last has exactly `size` members, every team has between
   * 1 and `size` members, no roll is in two teams, and together they are the pool.
   */
  ghost predicate IsPartition(pool: set<string>, size: int, teams: seq<set<string>>) {
    && (forall i :: 0 <= i < |teams| - 1 ==> |teams[i]| == size)
    && (forall i :: 0 <= i < |teams| ==> 1 <= |teams[i]| <= size)
    && PairwiseDisjoint(teams)
    && UnionOf(teams) == pool
  }

  /** A roll is in the union exactly when it is in one of the teams. */
  lemma {:induction false} UnionMembers(teams: seq<set<string>>, r: string)
    ensures r in UnionOf(teams) <==> exists i :: 0 <= i < |teams| && r in teams[i]
    decreases |teams|
  {
    if teams != [] {
      var init := teams[..|teams| - 1];
      UnionMembers(init, r);
      if r in UnionOf(init) {
        var i :| 0 <= i < |init| && r in init[i];
        assert r in teams[i];
      }
      if exists i :: 0 <= i < |teams| && r in teams[i] {
        var i :| 0 <= i < |teams| && r in teams[i];
        if i < |init| {
          assert r in init[i];
        }
      }
    }
  }

  /** Disjoint teams have as many members together as their sizes add up to. */
  lemma {:induction false} UnionSize(teams: seq<set<string>>)
    requires PairwiseDisjoint(teams)
    ensures |UnionOf(teams)| == SumSizes(teams)
    decreases |teams|
  {
    if teams != [] {
      var init, last := teams[..|teams| - 1], teams[|teams| - 1];
      assert PairwiseDisjoint(init);
      UnionSize(init);
      forall r | r in UnionOf(init) ensures r !in last {
        UnionMembers(init, r);
        var i :| 0 <= i < |init| && r in init[i];
        assert teams[i] !! teams[|teams| - 1];
      }
      assert UnionOf(init) !! last;
    }
  }

  /** Appending a team disjoint from all earlier members keeps the teams pairwise disjoint. */
  lemma AppendDisjoint(teams: seq<set<string>>, team: set<string>)
    requires PairwiseDisjoint(teams) && UnionOf(teams) !! team
    ensures PairwiseDisjoint(teams + [team])
    ensures UnionOf(teams + [team]) == UnionOf(teams) + team
  {
    var teams' := teams + [team];
    assert teams'[..|teams'| - 1] == teams;
    forall i | 0 <= i < |teams| ensures teams[i] !! team {
      forall r | r in teams[i] ensures r !in team {
        UnionMembers(teams, r);
      }
    }
  }

  /**
   * The state of the drawing loop: full teams of `size`, pairwise disjoint, and the
   * rest of the pool, disjoint from them, together make up the pool; once a team has
   * been drawn, something is left.
   */
  ghost predicate Drawing(pool: set<string>, size: int, full: seq<set<string>>, rest: set<string>) {
    && UnionOf(full) + rest == pool && UnionOf(full) !! rest
    && PairwiseDisjoint(full)
    && (forall i :: 0 <= i < |full| ==> |full[i]| == size)
    && (full != [] ==> rest != {})
  }

  /** Drawing a full team out of a rest larger than `size` keeps the loop state and shrinks the rest. */
  lemma DrawStep(pool: set<string>, size: int, full: seq<set<string>>, rest: set<string>, team: set<string>)
    requires Drawing(pool, size, full, rest)
    requires team <= rest && |team| == size && |rest| > size
    ensures Drawing(pool, size, full + [team], rest - team)
    ensures |rest - team| == |rest| - size
  {
    AppendDisjoint(full, team);
    RemoveTeam(rest, team);
    var full' := full + [team];
    assert forall i :: 0 <= i < |full| ==> full'[i] == full[i];
  }

  /**
   * Once at most `size` remain, adding the rest as the last team (if non-empty)
   * partitions the pool.
   */
  lemma LeftoverCompletes(pool: set<string>, size: int, full: seq<set<string>>, rest: set<string>)
    requires size >= 1 && Drawing(pool, size, full, rest) && |rest| <= size
    ensures IsPartition(pool, size, if rest == {} then full else full + [rest])
  {
    if rest == {} {
      assert UnionOf(full) == pool;
    } else {
      AppendDisjoint(full, rest);
      var teams := full + [rest];
      assert forall i :: 0 <= i < |full| ==> teams[i] == full[i];
      assert teams[|full|] == rest && |rest| >= 1;
      assert forall i :: 0 <= i < |teams| - 1 ==> |teams[i]| == size;
      assert forall i :: 0 <= i < |teams| ==> 1 <= |teams[i]| <= size;
      assert UnionOf(teams) == pool;
    }
  }

  /** Taking a team out of the pool leaves the pool smaller by the team's size. */
  lemma RemoveTeam(rest: set<string>, team: set<string>)
    requires team <= rest
    ensures |rest - team| == |rest| - |team|
  {
    assert rest == (rest - team) + team;
  }

  lemma {:induction false} SumOfEqualSizes(teams: seq<set<string>>, size: nat)
    requires forall i :: 0 <= i < |teams| ==> |teams[i]| == size
    ensures SumSizes(teams) == |teams| * size
    decreases |teams|
  {
    if teams != [] {
      SumOfEqualSizes(teams[..|teams| - 1], size);
    }
  }

  lemma DivModUnique(x: nat, d: nat, q: nat, m: nat)
    requires d > 0 && m < d && x == q * d + m
    ensures x / d == q && x % d == m
  {
    var q', m' := x / d, x % d;
    if q' > q {
      MulMonotone(q + 1, q', d);
      assert false;
    } else if q' < q {
      MulMonotone(q' + 1, q, d);
      assert false;
    }
  }

  lemma MulMonotone(a: nat, b: nat, d: nat)
    requires a <= b
    ensures a * d <= b * d
  {
  }

  /** a / b rounded up. */
  function CeilDiv(a: nat, b: nat): nat
    requires b >= 1
  {
    (a + b - 1) / b
  }

  /** a mod b, or a full b when b divides a. */
  function LastTeamSize(a: nat, b: nat): nat
    requires b >= 1
  {
    if a % b == 0 then b else a % b
  }

  /**
   * A partition of the pool into teams of `size` has ceil(|pool| / size) teams, none
   * exactly when the pool is empty, and its last team holds |pool| mod size members,
   * or a full `size` when the pool divides evenly.
   */
  lemma TeamCount(pool: set<string>, size: int, teams: seq<set<string>>)
    requires size >= 1 && IsPartition(pool, size, teams)
    ensures |teams| == CeilDiv(|pool|, size)
    ensures teams == [] <==> pool == {}
    ensures teams != [] ==> |teams[|teams| - 1]| == LastTeamSize(|pool|, size)
  {
    UnionSize(teams);
    if teams == [] {
      DivModUnique(|pool| + size - 1, size, 0, size - 1);
    } else {
      var k := |teams|;
      var init, last := teams[..k - 1], teams[k - 1];
      SumOfEqualSizes(init, size);
      assert SumSizes(teams) == (k - 1) * size + |last|;
      assert |pool| + size - 1 == k * size + (|last| - 1);
      DivModUnique(|pool| + size - 1, size, k, |last| - 1);
      assert pool != {};
      if |last| == size {
        DivModUnique(|pool|, size, k, 0);
      } else {
        DivModUnique(|pool|, size, k - 1, |last|);
      }
    }
  }
}
