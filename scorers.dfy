/** The tally of season top scorers: a dictionary from player name to the number
    of seasons in which that player scored the most points. */
module Scorers {
  import opened Sequences

  /** Sum of the counts of `keys`, as `sum(best_scorers.values())` over the
      dictionary's keys in insertion order. */
  function Total(keys: seq<string>, counts: map<string, nat>): nat
    requires forall k :: k in keys ==> k in counts
  {
    if keys == [] then 0
    else Total(keys[..|keys| - 1], counts) + counts[keys[|keys| - 1]]
  }

  /** The total reads only the counts of its own keys. */
  lemma {:induction false} TotalFrame(keys: seq<string>, c1: map<string, nat>, c2: map<string, nat>)
    requires forall k :: k in keys ==> k in c1 && k in c2 && c1[k] == c2[k]
    ensures Total(keys, c1) == Total(keys, c2)
  {
    if keys != [] {
      TotalFrame(keys[..|keys| - 1], c1, c2);
    }
  }

  /** Adding one to the count of a key that occurs once raises the total by one. */
  lemma {:induction false} TotalBump(keys: seq<string>, counts: map<string, nat>, name: string)
    requires forall k :: k in keys ==> k in counts
    requires NoDuplicates(keys) && name in keys
    ensures Total(keys, counts[name := counts[name] + 1]) == Total(keys, counts) + 1
  {
    var init := keys[..|keys| - 1];
    var last := keys[|keys| - 1];
    var bumped := counts[name := counts[name] + 1];
    if last == name {
      assert name !in init by {
        forall i | 0 <= i < |init| ensures init[i] != name {
          assert keys[i] == init[i];
        }
      }
      TotalFrame(init, counts, bumped);
    } else {
      assert name in init by {
        var j :| 0 <= j < |keys| && keys[j] == name;
        assert j < |keys| - 1 && init[j] == name;
      }
      assert NoDuplicates(init) by {
        forall i, j | 0 <= i < j < |init| ensures init[i] != init[j] {
          assert keys[i] == init[i] && keys[j] == init[j];
        }
      }
      TotalBump(init, counts, name);
    }
  }

  /** The dictionary after the loop of lines 206-211 has seen the names `s`, in order. */
  function Tally(s: seq<string>): map<string, nat>
  {
    if s == [] then map[]
    else
      var seen := Tally(s[..|s| - 1]);
      var name := s[|s| - 1];
      if name in seen then seen[name := seen[name] + 1] else seen[name := 1]
  }

  /** The keys of the tally are the names seen, and each count is the number of
      times its name occurs, hence at least one. */
  lemma {:induction false} TallyCounts(s: seq<string>)
    ensures forall n :: n in Tally(s) <==> n in s
    ensures forall n :: n in Tally(s) ==> Tally(s)[n] == multiset(s)[n] && Tally(s)[n] >= 1
  {
    if s != [] {
      var init := s[..|s| - 1];
      TallyCounts(init);
      assert s == init + [s[|s| - 1]];
    }
  }

  /** One more name inserts it with count 1 or raises its count by one. */
  lemma TallySnoc(s: seq<string>, name: string)
    ensures Tally(s + [name]) ==
      if name in Tally(s) then Tally(s)[name := Tally(s)[name] + 1] else Tally(s)[name := 1]
  {
    assert (s + [name])[..|s|] == s;
  }

  /** A name is a key of the tally exactly when it was seen. */
  lemma TallyHas(s: seq<string>, name: string)
    ensures name in Tally(s) <==> name in s
  {
    TallyCounts(s);
  }

  /** A repeated name leaves the keys alone and raises its own count by one. */
  lemma TotalRepeat(s: seq<string>, name: string)
    requires name in s
    requires forall n :: n in Distinct(s) ==> n in Tally(s)
    ensures Distinct(s + [name]) == Distinct(s)
    ensures Total(Distinct(s), Tally(s + [name])) == Total(Distinct(s), Tally(s)) + 1
  {
    DistinctSnoc(s, name);
    TallySnoc(s, name);
    TallyHas(s, name);
    DistinctMembers(s);
    TotalBump(Distinct(s), Tally(s), name);
  }

  /** A new name becomes the last key, with count 1, and leaves the other counts alone. */
  lemma TotalNew(s: seq<string>, name: string)
    requires name !in s
    requires forall n :: n in Distinct(s) ==> n in Tally(s)
    ensures Distinct(s + [name]) == Distinct(s) + [name]
    ensures Tally(s + [name]) == Tally(s)[name := 1]
    ensures Total(Distinct(s), Tally(s)[name := 1]) == Total(Distinct(s), Tally(s))
  {
    DistinctSnoc(s, name);
    TallySnoc(s, name);
    TallyHas(s, name);
    DistinctMembers(s);
    TotalFrame(Distinct(s), Tally(s), Tally(s)[name := 1]);
  }

  /** One more name raises the total over the keys by one. */
  lemma TallyTotalStep(s: seq<string>, name: string)
    requires forall n :: n in Distinct(s) ==> n in Tally(s)
    ensures forall n :: n in Distinct(s + [name]) ==> n in Tally(s + [name])
    ensures Total(Distinct(s + [name]), Tally(s + [name])) == Total(Distinct(s), Tally(s)) + 1
  {
    TallyCounts(s + [name]);
    DistinctMembers(s + [name]);
    if name in s {
      TotalRepeat(s, name);
    } else {
      TotalNew(s, name);
      var d := Distinct(s);
      assert (d + [name])[..|d|] == d;
    }
  }

  /** The counts, summed over the keys in insertion order, give the number of names. */
  lemma {:induction false} TallyTotal(s: seq<string>)
    ensures forall n :: n in Distinct(s) ==> n in Tally(s)
    ensures Total(Distinct(s), Tally(s)) == |s|
  {
    TallyCounts(s);
    DistinctMembers(s);
    if s != [] {
      var init := s[..|s| - 1];
      TallyTotal(init);
      TallyTotalStep(init, s[|s| - 1]);
      assert s == init + [s[|s| - 1]];
    }
  }

  /** Lines 204-211: for each name in table order, a name not yet in the
      dictionary is inserted with count 1, and a name already there has its count
      raised by one. `names` is the first column of the table of season top
      scorers. The keys come out in order of first appearance, every name of the
      table is a key and no other, each count is the number of times the name
      occurs (so at least one), and the counts add up to the number of rows. */
  method CountBestScorers(names: seq<string>) returns (order: seq<string>, counts: map<string, nat>)
    ensures order == Distinct(names) && counts == Tally(names)
    ensures forall n :: n in counts <==> n in names
    ensures forall n :: n in counts ==> counts[n] == multiset(names)[n] && counts[n] >= 1
    ensures forall n :: n in order ==> n in counts
    ensures Total(order, counts) == |names|
  {
    order := [];
    counts := map[];
    var i := 0;
    while i < |names|
      invariant 0 <= i <= |names|
      invariant order == Distinct(names[..i]) && counts == Tally(names[..i])
    {
      var name := names[i];
      assert names[..i + 1] == names[..i] + [name];
      DistinctSnoc(names[..i], name);
      TallySnoc(names[..i], name);
      TallyHas(names[..i], name);
      if name !in counts {
        counts := counts[name := 1];
        order := order + [name];
      } else {
        counts := counts[name := counts[name] + 1];
      }
      i := i + 1;
    }
    assert names[..i] == names;
    TallyCounts(names);
    TallyTotal(names);
    DistinctMembers(names);
  }
}
