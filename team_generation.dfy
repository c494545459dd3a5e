/**
 * The team generator: build the roster of roll numbers, shuffle it, and split
 * it into teams of a fixed size with one leftover team.
 *
 * Python's random.choice and random.shuffle are modelled as arbitrary choices
 * (`:|`), so every contract below holds whatever the random generator picks.
 */
module TeamGeneration {
  import opened Decimal
  import opened RollNumbers
  import opened Partition

  datatype Result<T, E> = Ok(value: T) | Err(error: E)

  /** The two assertion failures of construction, named after their messages. */
  datatype ConfigError =
    | TeamSizeOutOfRange   // "team_size must be > 1 or <= n_stds"
    | TooFewStudents       // "n_stds must be >= team_size"

  /** random.choice on an empty list raises IndexError. */
  datatype DrawError = IndexError

  /**
   * The constructor's two assertions as written. The first joins its conditions
   * with `or`, so it fails only where the second would fail as well.
   */
  function CheckConfigAsWritten(teamSize: int, nStds: int): (r: Result<(), ConfigError>)
    ensures r.Ok? <==> teamSize <= nStds
    ensures r == Err(TeamSizeOutOfRange) <==> teamSize <= 1 && nStds < teamSize
  {
    if !(teamSize > 1 || teamSize <= nStds) then Err(TeamSizeOutOfRange)
    else if nStds < teamSize then Err(TooFewStudents)
    else Ok(())
  }

  /**
   * The assertions as documented: team_size must exceed 1, and n_stds must be at
   * least team_size.
   */
  function CheckConfig(teamSize: int, nStds: int): (r: Result<(), ConfigError>)
    ensures r.Ok? <==> 1 < teamSize <= nStds
    ensures r == Err(TeamSizeOutOfRange) <==> teamSize <= 1
    ensures r.Ok? ==> CheckConfigAsWritten(teamSize, nStds).Ok?
  {
    if !(teamSize > 1) then Err(TeamSizeOutOfRange)
    else if nStds < teamSize then Err(TooFewStudents)
    else Ok(())
  }

  /**
   * The assertions as written accept team_size 0 with five students. The eligible
   * pool then has five rolls, so the loop guard (5 > 0) holds, while every team
   * drawn is empty and leaves the pool as it was (GenerateTeams.ZeroTeamStep): the
   * pool never shrinks and the loop never ends. The documented check rejects this configuration.
   */
  lemma AsWrittenAcceptsZeroTeamSize()
    ensures CheckConfigAsWritten(0, 5).Ok?
    ensures !CheckConfig(0, 5).Ok?
    ensures |EligibleSet("16BDA", 5, [])| == 5 > 0
  {
    EligibleSetSize("16BDA", 5, []);
    assert WhitelistedRolls("16BDA", 5, []) == {};
  }

  /**
   * No roll has an index part of three digits starting with "0": indices below 10
   * get two digits, and from 10 on there is no leading zero.
   */
  lemma NoRollHasPaddedThreeDigits(prefix: string, n: nat, d1: char, d2: char)
    ensures Roll(prefix, n) != prefix + ['0', d1, d2]
  {
    RollFormat(prefix, n);
    PadIndexDigits(n);
  }

  /** No generated roll is one of the two entries of the documented whitelist example. */
  lemma NotInDocWhitelist(n: nat)
    ensures Roll("16BDA", n) !in ["16BDA001", "16BDA002"]
  {
    assert "16BDA001" == "16BDA" + ['0', '0', '1'];
    assert "16BDA002" == "16BDA" + ['0', '0', '2'];
    NoRollHasPaddedThreeDigits("16BDA", n, '0', '1');
    NoRollHasPaddedThreeDigits("16BDA", n, '0', '2');
  }

  /**
   * The whitelist format the class documentation gives as its example, three-digit
   * indices, matches no generated roll: whatever n_stds, it excludes nobody.
   */
  lemma DocWhitelistExcludesNobody(k: nat)
    ensures WhitelistedRolls("16BDA", k, ["16BDA001", "16BDA002"]) == {}
    ensures |EligibleSet("16BDA", k, ["16BDA001", "16BDA002"])| == k
  {
    var wl := ["16BDA001", "16BDA002"];
    forall r | r in Candidates("16BDA", k) ensures r !in wl {
      CandidatesMembers("16BDA", k, r);
      var n: nat :| 1 <= n <= k && r == Roll("16BDA", n);
      NotInDocWhitelist(n);
    }
    EligibleSetSize("16BDA", k, wl);
  }

  /** The same example written in the format the rolls have excludes the two students it names. */
  lemma DocWhitelistTwoDigits(k: nat)
    requires k >= 2
    ensures WhitelistedRolls("16BDA", k, ["16BDA01", "16BDA02"]) == {"16BDA01", "16BDA02"}
    ensures |EligibleSet("16BDA", k, ["16BDA01", "16BDA02"])| == k - 2
  {
    assert NatToString(1) == "1" && NatToString(2) == "2";
    assert Roll("16BDA", 1) == "16BDA01" && Roll("16BDA", 2) == "16BDA02";
    CandidatesMembers("16BDA", k, "16BDA01");
    CandidatesMembers("16BDA", k, "16BDA02");
    EligibleSetSize("16BDA", k, ["16BDA01", "16BDA02"]);
  }

  /** Every roll of a partition of the eligible pool is outside the whitelist. */
  lemma PartitionExcludesWhitelist(prefix: string, nStds: int, whitelist: seq<string>, size: int, teams: seq<set<string>>)
    requires IsPartition(EligibleSet(prefix, nStds, whitelist), size, teams)
    ensures forall i, r :: 0 <= i < |teams| && r in teams[i] ==> r !in whitelist
  {
    forall i, r | 0 <= i < |teams| && r in teams[i] ensures r !in whitelist {
      UnionMembers(teams, r);
      EligibleMembers(prefix, nStds, whitelist, r);
    }
  }

  /** Ten students in teams of three: whatever is drawn, three full teams and a last team of one. */
  lemma TenStudentsInThrees(teams: seq<set<string>>)
    requires IsPartition(EligibleSet("X", 10, []), 3, teams)
    ensures |teams| == 4
    ensures forall i :: 0 <= i < 3 ==> |teams[i]| == 3
    ensures |teams[3]| == 1
  {
    EligibleSetSize("X", 10, []);
    assert WhitelistedRolls("X", 10, []) == {};
    TeamCount(EligibleSet("X", 10, []), 3, teams);
  }

  lemma OnlyA01Whitelisted()
    ensures WhitelistedRolls("A", 8, ["A01"]) == {"A01"}
  {
    assert NatToString(1) == "1";
    assert Roll("A", 1) == "A01";
    CandidatesMembers("A", 8, "A01");
  }

  /** Eight students in teams of four with "A01" whitelisted: one full team and a last team of three. */
  lemma EightStudentsOneWhitelisted(teams: seq<set<string>>)
    requires IsPartition(EligibleSet("A", 8, ["A01"]), 4, teams)
    ensures |teams| == 2 && |teams[0]| == 4 && |teams[1]| == 3
    ensures forall i :: 0 <= i < |teams| ==> "A01" !in teams[i]
  {
    OnlyA01Whitelisted();
    EligibleSetSize("A", 8, ["A01"]);
    TeamCount(EligibleSet("A", 8, ["A01"]), 4, teams);
    PartitionExcludesWhitelist("A", 8, ["A01"], 4, teams);
  }

  /**
   * random.shuffle: walk i from the last index down to 1 and swap position i
   * with an arbitrary position j in 0..i. The result is a permutation.
   */
  method Shuffle(s: seq<string>) returns (r: seq<string>)
    ensures multiset(r) == multiset(s)
  {
    r := s;
    var i := |r| - 1;
    while i > 0
      invariant i < |r| == |s|
      invariant multiset(r) == multiset(s)
    {
      var j :| 0 <= j <= i;
      r := r[i := r[j]][j := r[i]];
      i := i - 1;
    }
  }

  class GenerateTeams {
    const teamSize: int
    const nStds: int
    const rollPrefix: string
    const whitelist: seq<string>

    /** The configuration passed the (documented) construction checks. */
    predicate Valid() {
      CheckConfig(teamSize, nStds).Ok?
    }

    /** The field assignments of construction, once both assertions have passed. */
    constructor (teamSize: int, nStds: int, rollPrefix: string, whitelist: seq<string>)
      requires CheckConfig(teamSize, nStds).Ok?
      ensures Valid()
      ensures this.teamSize == teamSize && this.nStds == nStds
      ensures this.rollPrefix == rollPrefix && this.whitelist == whitelist
    {
      this.teamSize := teamSize;
      this.nStds := nStds;
      this.rollPrefix := rollPrefix;
      this.whitelist := whitelist;
    }

    /** Construction: check the configuration, failing with its error, then set the fields. */
    static method Create(teamSize: int, nStds: int, rollPrefix: string, whitelist: seq<string>)
      returns (r: Result<GenerateTeams, ConfigError>)
      ensures r.Err? ==> CheckConfig(teamSize, nStds) == Err(r.error)
      ensures r.Ok? ==> CheckConfig(teamSize, nStds).Ok? && fresh(r.value) && r.value.Valid()
      ensures r.Ok? ==> r.value.teamSize == teamSize && r.value.nStds == nStds
      ensures r.Ok? ==> r.value.rollPrefix == rollPrefix && r.value.whitelist == whitelist
    {
      var check := CheckConfig(teamSize, nStds);
      if check.Err? {
        return Err(check.error);
      }
      var g := new GenerateTeams(teamSize, nStds, rollPrefix, whitelist);
      return Ok(g);
    }

    /**
     * The roster: the roll of every index 1..nStds that is not whitelisted, each
     * once, in a shuffled order.
     */
    method GenRollNumLst() returns (rolls: seq<string>)
      requires Valid()
      ensures multiset(rolls) == multiset(Eligible(rollPrefix, nStds, whitelist))
      ensures forall r :: r in rolls <==> IsEligibleRoll(rollPrefix, nStds, whitelist, r)
      ensures Distinct(rolls)
      ensures |rolls| == nStds - |WhitelistedRolls(rollPrefix, nStds, whitelist)|
    {
      var lst: seq<string> := [];
      var n := 1;
      while n < nStds + 1
        invariant 1 <= n <= nStds + 1
        invariant lst == Eligible(rollPrefix, n - 1, whitelist)
      {
        var roll := Roll(rollPrefix, n);
        assert Eligible(rollPrefix, n, whitelist) == lst + (if roll in whitelist then [] else [roll]) by {
          EligibleStep(rollPrefix, n, whitelist);
        }
        if roll !in whitelist {
          lst := lst + [roll];
        }
        n := n + 1;
      }
      assert lst == Eligible(rollPrefix, nStds, whitelist);
      rolls := Shuffle(lst);
      PermutedRoster(rollPrefix, nStds, whitelist, rolls);
    }

    /**
     * Draw n members from a copy of stdLst, one arbitrary pick at a time, each
     * pick removed from the copy. Fails when stdLst runs out before n picks.
     */
    static method GenTeam(n: int, stdLst: set<string>) returns (r: Result<set<string>, DrawError>)
      ensures r.Ok? <==> n <= |stdLst|
      ensures r.Ok? ==> r.value <= stdLst && |r.value| == if n < 0 then 0 else n
    {
      var work := stdLst;
      var team: set<string> := {};
      var i := 0;
      while i < n
        invariant 0 <= i <= if n < 0 then 0 else n
        invariant team <= stdLst && work == stdLst - team
        invariant |team| == i && |work| == |stdLst| - i
      {
        if work == {} {
          return Err(IndexError);
        }
        var roll :| roll in work;
        team := team + {roll};
        work := work - {roll};
        i := i + 1;
      }
      return Ok(team);
    }

    /**
     * One pass of the drawing loop with team_size 0, as the assertions as written
     * allow: the draw succeeds with no members, and the pool left is the pool drawn
     * from, so a non-empty pool keeps the loop guard true.
     */
    static method ZeroTeamStep(rest: set<string>) returns (team: set<string>, rest': set<string>)
      ensures team == {} && rest' == rest
    {
      var d := GenTeam(0, rest);
      team := d.value;
      rest' := rest - team;
    }

    /**
     * Split the eligible pool into teams: draw full teams while more than
     * teamSize rolls remain, then add what is left, if anything, as the last team.
     * `drawn` counts the teams that came from GenTeam: all but the last one.
     */
    method GenNTeams() returns (teams: seq<set<string>>, ghost drawn: nat)
      requires Valid()
      ensures IsPartition(EligibleSet(rollPrefix, nStds, whitelist), teamSize, teams)
      ensures |teams| == CeilDiv(|EligibleSet(rollPrefix, nStds, whitelist)|, teamSize)
      ensures teams == [] <==> EligibleSet(rollPrefix, nStds, whitelist) == {}
      ensures teams != [] ==> |teams[|teams| - 1]| == LastTeamSize(|EligibleSet(rollPrefix, nStds, whitelist)|, teamSize)
      ensures forall i, r :: 0 <= i < |teams| && r in teams[i] ==> r !in whitelist
      ensures drawn == if teams == [] then 0 else |teams| - 1
    {
      var rolls := GenRollNumLst();
      var pool := set r | r in rolls;
      SameElements(rolls, Eligible(rollPrefix, nStds, whitelist));
      teams, drawn := SplitPool(pool, teamSize);
      TeamCount(pool, teamSize, teams);
      PartitionExcludesWhitelist(rollPrefix, nStds, whitelist, teamSize, teams);
    }

    /** The loop of GenNTeams and its leftover branch, on the pool as a set. */
    static method SplitPool(pool: set<string>, teamSize: int) returns (teams: seq<set<string>>, ghost drawn: nat)
      requires teamSize >= 1
      ensures IsPartition(pool, teamSize, teams)
      ensures drawn == if teams == [] then 0 else |teams| - 1
    {
      var rest := pool;
      teams, drawn := [], 0;
      while |rest| > teamSize
        invariant Drawing(pool, teamSize, teams, rest)
        invariant drawn == |teams|
        decreases |rest|
      {
        var d := GenTeam(teamSize, rest);
        var team := d.value;
        DrawStep(pool, teamSize, teams, rest, team);
        teams := teams + [team];
        rest := rest - team;
        drawn := drawn + 1;
      }
      LeftoverCompletes(pool, teamSize, teams, rest);
      if |rest| > 0 {
        teams := teams + [rest];
      }
    }
  }
}
