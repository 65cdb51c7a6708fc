/** `analyze_male_players` without the printing: the player total, the three rating
    bands and the four position groups, each a `len` of a masked table. */
module Analytics {
  import opened Records
  import opened Frames

  const DefenderPositions: seq<string> := ["CB", "LB", "RB", "LWB", "RWB"]
  const MidfielderPositions: seq<string> := ["CM", "CDM", "CAM", "RM", "LM"]
  const StrikerPositions: seq<string> := ["ST", "CF", "RW", "LW"]

  predicate Rated90Plus(p: Player) { p.overall >= 90 }
  predicate Rated80To89(p: Player) { p.overall >= 80 && p.overall < 90 }
  predicate Rated70To79(p: Player) { p.overall >= 70 && p.overall < 80 }
  predicate Rated80Plus(p: Player) { p.overall >= 80 }
  predicate Rated70Plus(p: Player) { p.overall >= 70 }

  predicate IsDefender(p: Player) { p.position in DefenderPositions }
  predicate IsMidfielder(p: Player) { p.position in MidfielderPositions }
  predicate IsStriker(p: Player) { p.position in StrikerPositions }
  predicate InFirstTwoGroups(p: Player) { IsGoalkeeper(p) || IsDefender(p) }
  predicate InFirstThreeGroups(p: Player) { InFirstTwoGroups(p) || IsMidfielder(p) }
  predicate InAnyGroup(p: Player) { InFirstThreeGroups(p) || IsStriker(p) }

  /** The figures `analyze_male_players` prints. */
  datatype Stats = Stats(
    total: nat,
    rated90Plus: nat, rated80To89: nat, rated70To79: nat,
    goalkeepers: nat, defenders: nat, midfielders: nat, strikers: nat)

  /** Each figure is the number of rows that satisfy its condition. */
  function AnalyzeMalePlayers(datafile: seq<Player>): (s: Stats)
    ensures s.total == |datafile|
    ensures s.rated90Plus == |MatchingIndices(datafile, Rated90Plus)|
    ensures s.rated80To89 == |MatchingIndices(datafile, Rated80To89)|
    ensures s.rated70To79 == |MatchingIndices(datafile, Rated70To79)|
    ensures s.goalkeepers == |MatchingIndices(datafile, IsGoalkeeper)|
    ensures s.defenders == |MatchingIndices(datafile, IsDefender)|
    ensures s.midfielders == |MatchingIndices(datafile, IsMidfielder)|
    ensures s.strikers == |MatchingIndices(datafile, IsStriker)|
    ensures s.rated90Plus <= s.total && s.rated80To89 <= s.total && s.rated70To79 <= s.total
    ensures s.goalkeepers <= s.total && s.defenders <= s.total
    ensures s.midfielders <= s.total && s.strikers <= s.total
  {
    FilterCountsMatches(datafile, Rated90Plus);
    FilterCountsMatches(datafile, Rated80To89);
    FilterCountsMatches(datafile, Rated70To79);
    FilterCountsMatches(datafile, IsGoalkeeper);
    FilterCountsMatches(datafile, IsDefender);
    FilterCountsMatches(datafile, IsMidfielder);
    FilterCountsMatches(datafile, IsStriker);
    Stats(
      |datafile|,
      |Filter(datafile, Rated90Plus)|,
      |Filter(datafile, Rated80To89)|,
      |Filter(datafile, Rated70To79)|,
      |Filter(datafile, IsGoalkeeper)|,
      |Filter(datafile, IsDefender)|,
      |Filter(datafile, IsMidfielder)|,
      |Filter(datafile, IsStriker)|)
  }

  /** The bands 90+, [80, 90) and [70, 80) do not overlap and together are exactly the
      rows rated 70 or more, so their counts add up to that number, which is at most
      the total. */
  lemma RatingBandsPartition(datafile: seq<Player>)
    ensures forall p ::
      !(Rated90Plus(p) && Rated80To89(p)) && !(Rated80To89(p) && Rated70To79(p)) && !(Rated90Plus(p) && Rated70To79(p))
    ensures var s := AnalyzeMalePlayers(datafile);
      && s.rated90Plus + s.rated80To89 + s.rated70To79 == |Filter(datafile, Rated70Plus)|
      && |Filter(datafile, Rated70Plus)| <= s.total
  {
    FilterDisjointUnion(datafile, Rated90Plus, Rated80To89, Rated80Plus);
    FilterDisjointUnion(datafile, Rated80Plus, Rated70To79, Rated70Plus);
  }

  /** The four position lists share no position, so no row is in two groups. */
  lemma PositionGroupsDisjoint()
    ensures forall p :: IsGoalkeeper(p) ==> !IsDefender(p) && !IsMidfielder(p) && !IsStriker(p)
    ensures forall p :: IsDefender(p) ==> !IsMidfielder(p) && !IsStriker(p)
    ensures forall p :: IsMidfielder(p) ==> !IsStriker(p)
  {
  }

  /** Since the groups are disjoint, the four group counts add up to the number of
      rows in some group, which is at most the total. */
  lemma PositionGroupCountsBounded(datafile: seq<Player>)
    ensures var s := AnalyzeMalePlayers(datafile);
      && s.goalkeepers + s.defenders + s.midfielders + s.strikers == |Filter(datafile, InAnyGroup)|
      && s.goalkeepers + s.defenders + s.midfielders + s.strikers <= s.total
  {
    PositionGroupsDisjoint();
    FilterDisjointUnion(datafile, IsGoalkeeper, IsDefender, InFirstTwoGroups);
    FilterDisjointUnion(datafile, InFirstTwoGroups, IsMidfielder, InFirstThreeGroups);
    FilterDisjointUnion(datafile, InFirstThreeGroups, IsStriker, InAnyGroup);
  }

  /** A row whose position is in none of the four lists adds to no group count. */
  lemma UngroupedRowCountsNowhere(datafile: seq<Player>, p: Player)
    requires !InAnyGroup(p)
    ensures multiset(Filter(datafile, IsGoalkeeper))[p] == 0
    ensures multiset(Filter(datafile, IsDefender))[p] == 0
    ensures multiset(Filter(datafile, IsMidfielder))[p] == 0
    ensures multiset(Filter(datafile, IsStriker))[p] == 0
  {
    FilterMultiplicity(datafile, IsGoalkeeper, p);
    FilterMultiplicity(datafile, IsDefender, p);
    FilterMultiplicity(datafile, IsMidfielder, p);
    FilterMultiplicity(datafile, IsStriker, p);
  }
}
