# Team generation, modelled in Dafny

This project models `GenerateTeams`, a small Python utility that splits a class of
students into project teams. It builds the roll numbers `prefix + index` for
indices 1..n_stds. Indices below 10 get a leading `0`. It drops the rolls on the
whitelist, which holds students who have left the course. It shuffles the roster.
Then it draws full teams of `team_size` at random while more than `team_size`
students remain, and puts whatever is left in one last team.

The random choices are not modelled as a generator. `random.choice` is an
arbitrary pick (`:|`) from the remaining set. `random.shuffle` is a Fisher–Yates
walk that swaps each position with an arbitrary position at or before it. Every contract therefore holds
for every outcome of the random generator.

Modules:

- `Decimal` (`decimal.dfy`): `NatToString`, the notation Python's f-string gives a
  non-negative int, and `DigitsValue`, which reads it back.
- `RollNumbers` (`roll_numbers.dfy`): the padding rule and `Roll`. It also holds
  `Eligible(prefix, k, whitelist)`, the reference definition of the roster in index
  order, with its membership, distinctness and length laws.
- `Partition` (`partition.dfy`): `IsPartition(pool, size, teams)`, the laws a list
  of teams obeys, and the count lemma: ceil(|pool| / size) teams, with the last one
  holding |pool| mod size members, or `size` members if size divides |pool|.
- `TeamGeneration` (`team_generation.dfy`): the constructor checks, `Shuffle`, and
  the class `GenerateTeams` with `GenRollNumLst`, `GenTeam` and `GenNTeams`.
  `GenNTeams`'s loop is the static method `SplitPool`.

Two behaviours of the code the model keeps:

- `gen_team` puts no bound on `n`: when the set runs out,
  `random.choice` raises IndexError, and `GenTeam` returns `Err(IndexError)`
  exactly when `n > |stdLst|`. A negative `n` draws nothing.
- The leftover team is a set. `gen_n_teams` turns the shuffled list into a set at
  line 103, so no shuffle order survives into any team.

## Model

| member | source | states |
|---|---|---|
| Decimal.NatToStringShape | team_generation.py:60-62 | the decimal notation of n has at least one digit, only digits, exactly one digit iff n < 10, and no leading zero when n > 0 |
| Decimal.DigitsValueOfNatToString | team_generation.py:60-62 | reading the decimal notation of n back as digits gives n |
| Decimal.LeadingZero | team_generation.py:60 | a leading "0" keeps a digit string a digit string and does not change its value |
| Decimal.NatToStringInjective | team_generation.py:60-62 | different numbers have different decimal notations |
| RollNumbers.PadIndexDigits | team_generation.py:59-62 | the index part of a roll is a digit string worth n; below 10 it is two digits starting with "0", from 10 on it is the plain notation with no leading zero |
| RollNumbers.RollFormat | team_generation.py:58-62 | a roll is the prefix followed by the padded index, and the index can be read back from the part after the prefix |
| RollNumbers.RollInjective | team_generation.py:58-62 | distinct indices give distinct rolls under the same prefix |
| RollNumbers.CandidatesMembers | team_generation.py:58-62 | the generated rolls are exactly the rolls of indices 1..k |
| RollNumbers.CandidatesLength | team_generation.py:58 | k indices generate k rolls |
| RollNumbers.LaterRollAbsent | team_generation.py:58-62 | the rolls of 1..k never include the roll of a later index |
| RollNumbers.CandidatesDistinct | team_generation.py:58-62 | no roll is generated twice |
| RollNumbers.FilterMembers | team_generation.py:63-64 | a roll survives the whitelist check iff it was generated and is not on the whitelist |
| RollNumbers.FilterDistinct | team_generation.py:63-64 | the whitelist check keeps a list free of repeats |
| RollNumbers.FilterLength | team_generation.py:63-64 | on a list without repeats, the whitelist check removes exactly its whitelisted elements |
| RollNumbers.EligibleStep | team_generation.py:58-64 | index k appends its roll to the roster unless the roll is whitelisted |
| RollNumbers.EligibleMembers | team_generation.py:57-64 | a roll is in the roster iff it is the roll of some index 1..k and is not whitelisted |
| RollNumbers.EligibleDistinct | team_generation.py:57-64 | no roll occurs twice in the roster |
| RollNumbers.EligibleLength | team_generation.py:57-64 | the roster has k rolls less the generated rolls that are whitelisted |
| RollNumbers.PermutedRoster | team_generation.py:57-66 | any permutation of the roster holds exactly the eligible rolls, each once, and k less the whitelisted generated rolls of them |
| RollNumbers.DistinctCardinality | team_generation.py:103 | turning a list without repeats into a set keeps its size |
| RollNumbers.SameElements | team_generation.py:103 | a permutation of a list gives the same set |
| RollNumbers.EligibleSetSize | team_generation.py:57-64 | the roster as a set has n_stds rolls less the generated rolls that are whitelisted |
| Partition.UnionMembers | team_generation.py:107-110 | a roll is in the union of the teams iff it is in one of them |
| Partition.UnionSize | team_generation.py:104-110 | pairwise disjoint teams have together as many members as their sizes add up to |
| Partition.AppendDisjoint | team_generation.py:107 | appending a team disjoint from all earlier members keeps the teams pairwise disjoint and adds its members to the union |
| Partition.RemoveTeam | team_generation.py:108 | subtracting a team drawn from the pool shrinks the pool by exactly the team's size |
| Partition.DrawStep | team_generation.py:105-108 | drawing a full team out of a remainder larger than team_size keeps the loop state (full teams, pairwise disjoint, and the remainder make up the pool) and shrinks the remainder by exactly team_size |
| Partition.LeftoverCompletes | team_generation.py:109-110 | once at most team_size remain, the full teams plus the remainder added last (if non-empty) partition the pool |
| Partition.TeamCount | team_generation.py:105-110 | a partition into teams of `size` has ceil(\|pool\| / size) teams, none iff the pool is empty, and the last holds \|pool\| mod size members, or `size` when the pool divides evenly |
| TeamGeneration.CheckConfigAsWritten | team_generation.py:36-39 | the assertions as written accept exactly team_size <= n_stds; the first fails only where the second would fail too |
| TeamGeneration.CheckConfig | team_generation.py:20-23 | the documented check accepts exactly 1 < team_size <= n_stds, rejects team_size <= 1 with the first error, and accepts nothing the code as written rejects |
| TeamGeneration.AsWrittenAcceptsZeroTeamSize | team_generation.py:36-39 | the assertions as written accept team_size 0 with five students, whose pool of five keeps the loop guard true; the documented check rejects it |
| TeamGeneration.NoRollHasPaddedThreeDigits | team_generation.py:58-62 | no roll's index part is three characters starting with "0" |
| TeamGeneration.NotInDocWhitelist | team_generation.py:28-29 | no generated roll equals 16BDA001 or 16BDA002, the entries of the documented whitelist example |
| TeamGeneration.DocWhitelistExcludesNobody | team_generation.py:28-29 | the documented whitelist example matches none of the generated rolls, so for any n_stds the pool keeps all n_stds rolls |
| TeamGeneration.DocWhitelistTwoDigits | team_generation.py:28-29 | the same example written with two-digit indices excludes exactly its two students, leaving n_stds - 2 |
| TeamGeneration.PartitionExcludesWhitelist | team_generation.py:63-64 | no whitelisted roll is in any team of a partition of the eligible pool |
| TeamGeneration.TenStudentsInThrees | team_generation.py:105-110 | ten students in teams of three give three full teams and a last team of one, whatever is drawn |
| TeamGeneration.OnlyA01Whitelisted | team_generation.py:58-64 | of the rolls A01..A08, only A01 is on the whitelist ["A01"] |
| TeamGeneration.EightStudentsOneWhitelisted | team_generation.py:58-64 | eight students in teams of four with "A01" whitelisted give a team of four and a last team of three, none holding "A01" |
| TeamGeneration.Shuffle | team_generation.py:65 | the shuffled list is a permutation of its input |
| TeamGeneration.GenerateTeams.constructor | team_generation.py:41-44 | a configuration that passed the checks is stored as given |
| TeamGeneration.GenerateTeams.Create | team_generation.py:35-45 | construction fails with the check's error when the configuration is rejected, otherwise yields a fresh valid generator holding the given configuration |
| TeamGeneration.GenerateTeams.GenRollNumLst | team_generation.py:47-66 | the roster is a permutation of the index-ordered eligible rolls: it holds the roll of each index 1..n_stds not on the whitelist, each once, n_stds less the generated rolls that are whitelisted |
| TeamGeneration.GenerateTeams.GenTeam | team_generation.py:68-91 | the draw fails iff n exceeds the collection's size; otherwise it yields max(n, 0) distinct members, all from the collection |
| TeamGeneration.GenerateTeams.ZeroTeamStep | team_generation.py:105-108 | with team_size 0, one pass of the loop draws the empty team and leaves the remaining pool as it was, so the guard stays true on a non-empty pool |
| TeamGeneration.GenerateTeams.SplitPool | team_generation.py:104-110 | the loop and leftover branch partition the pool into full teams and a last team of 1..team_size; every team but the last comes from GenTeam |
| TeamGeneration.GenerateTeams.GenNTeams | team_generation.py:93-110 | the teams partition the eligible pool; there are ceil(\|pool\| / team_size) of them, none iff the pool is empty; the last has \|pool\| mod team_size members, or a full team_size; no team holds a whitelisted roll; only the last team comes from the leftover branch |

## Left out

- The DataFrame of lines 111-113 and its `TEAM_i` / `MEMBER_j` labels: this is output formatting in a foreign library. `GenNTeams` returns the list of teams the frame is built from.
- `random.seed` (line 45) and the generator's behaviour: the picks and the shuffle are arbitrary choices, so reproducibility under a seed is not modelled.
- `seed_val`: the constructor takes no seed because nothing else in the model uses it.
- Python's list and set objects: they are modelled as Dafny values (`seq`, `set`). That `gen_team` leaves the caller's set unchanged (its copy at line 85) follows from value semantics; `GenTeam` has no `modifies` clause.
- The whitelist is modelled as a list of strings, and `roll not in whitelist` as sequence membership.
- The assertions of lines 36-39 are assumed enabled: under `python -O` they are dropped and construction rejects nothing; the model does not capture that mode.
- Order within a team: teams are sets, as in the source from line 103 on.
- TeamGeneration.GenerateTeams.Create: rejects every team_size <= 1, negatives included, which the code as written accepts whenever n_stds >= team_size (see Findings). The code's other behaviour for team_size 1 is modelled on its own: `SplitPool` takes any team size of at least 1.

## Findings

| source | as written | input that shows it | evidently intended | confidence | as-written member | corrected member |
|---|---|---|---|---|---|---|
| team_generation.py:36-39 | the first assertion joins "team_size > 1" and "team_size <= n_stds" with `or`, so it rejects only what the second assertion rejects anyway, and team_size <= 1 passes whenever n_stds >= team_size | team_size = 0, n_stds = 5: construction succeeds; `gen_n_teams` then sees a pool of 5 > 0, every draw of 0 members leaves it unchanged, and the loop at line 105 never ends | team_size must exceed 1 and be at most n_stds, as the doc comment at lines 20-21 says | not executed; high | TeamGeneration.AsWrittenAcceptsZeroTeamSize | TeamGeneration.CheckConfig |
| team_generation.py:28-29 | the class documentation gives `['16BDA001', '16BDA002']` as a whitelist, with three-digit indices, while line 60 writes indices below 10 with two digits and line 62 from 10 on without a leading zero | roll_prefix = '16BDA', whitelist = ['16BDA001', '16BDA002'], any n_stds: no roll is excluded | whitelist entries in the format the rolls have, such as `['16BDA01', '16BDA02']` | not executed; medium | TeamGeneration.DocWhitelistExcludesNobody | TeamGeneration.DocWhitelistTwoDigits |
