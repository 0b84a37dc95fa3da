/** The candidate filter of the team selection: for one position group, the rows
    of the combined table from the chosen season whose position is in the group
    and whose age lies within the bracket. */
module Selection {
  import opened Sequences

  /** Lines 335-337: the values the notebook fixes for its selection. */
  const Year := 2013
  const AgeMax := 40
  const AgeMin := 18

  /** The columns of a combined-table row that the filter reads. */
  datatype Record = Record(player: string, pos: string, age: int, season: int)

  /** Line 341 as a mask: `df3['Season'] == year`. */
  function InYear(year: int): Record -> bool {
    (r: Record) => r.season == year
  }

  /** Line 342 as a mask: `df4['Pos'].isin(item)`. */
  function InGroup(group: seq<string>): Record -> bool {
    (r: Record) => r.pos in group
  }

  /** Line 343 as a mask: `df4['Age'] <= age_max`. */
  function AgeAtMost(ageMax: int): Record -> bool {
    (r: Record) => r.age <= ageMax
  }

  /** Line 344 as a mask: `df4['Age'] >= age_min`. */
  function AgeAtLeast(ageMin: int): Record -> bool {
    (r: Record) => r.age >= ageMin
  }

  /** A row is eligible for a group when it is from the year, its position is in
      the group and its age lies in `[ageMin, ageMax]`. */
  predicate Eligible(r: Record, year: int, group: seq<string>, ageMin: int, ageMax: int) {
    r.season == year && r.pos in group && ageMin <= r.age <= ageMax
  }

  function IsEligible(year: int, group: seq<string>, ageMin: int, ageMax: int): Record -> bool {
    (r: Record) => Eligible(r, year, group, ageMin, ageMax)
  }

  /** Lines 341-344: the four selections, one after the other. */
  function Candidates(rows: seq<Record>, year: int, group: seq<string>, ageMin: int, ageMax: int): seq<Record>
  {
    var bySeason := Where(rows, InYear(year));
    var byPos := Where(bySeason, InGroup(group));
    var byMax := Where(byPos, AgeAtMost(ageMax));
    Where(byMax, AgeAtLeast(ageMin))
  }

  /** The four selections in a row are one selection of the eligible rows. */
  lemma CandidatesEligible(rows: seq<Record>, year: int, group: seq<string>, ageMin: int, ageMax: int)
    ensures Candidates(rows, year, group, ageMin, ageMax) == Where(rows, IsEligible(year, group, ageMin, ageMax))
  {
    var inYearGroup := (r: Record) => r.season == year && r.pos in group;
    var belowMax := (r: Record) => r.season == year && r.pos in group && r.age <= ageMax;
    WhereWhere(rows, InYear(year), InGroup(group), inYearGroup);
    WhereWhere(rows, inYearGroup, AgeAtMost(ageMax), belowMax);
    WhereWhere(rows, belowMax, AgeAtLeast(ageMin), IsEligible(year, group, ageMin, ageMax));
  }

  /** The candidates are exactly the eligible rows: every eligible row is kept
      with all of its copies, no other row is, and the table's order is kept. */
  lemma CandidatesExact(rows: seq<Record>, year: int, group: seq<string>, ageMin: int, ageMax: int)
    ensures forall r :: r in Candidates(rows, year, group, ageMin, ageMax) <==>
      r in rows && Eligible(r, year, group, ageMin, ageMax)
    ensures forall r :: Eligible(r, year, group, ageMin, ageMax) ==>
      multiset(Candidates(rows, year, group, ageMin, ageMax))[r] == multiset(rows)[r]
    ensures IsSubsequence(Candidates(rows, year, group, ageMin, ageMax), rows)
  {
    var p := IsEligible(year, group, ageMin, ageMax);
    CandidatesEligible(rows, year, group, ageMin, ageMax);
    WhereMembers(rows, p);
    WhereCounts(rows, p);
    WhereIsSubsequence(rows, p);
  }

  /** The candidates for the notebook's own choice of year and age bracket are from
      2013 and aged 18 to 40. */
  lemma TeamCandidates(rows: seq<Record>, group: seq<string>)
    ensures forall r :: r in Candidates(rows, Year, group, AgeMin, AgeMax) ==>
      r.season == 2013 && r.pos in group && 18 <= r.age <= 40
  {
    CandidatesExact(rows, Year, group, AgeMin, AgeMax);
  }
}
