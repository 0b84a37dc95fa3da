/** Position groups: the first five distinct position codes of the combined table
    are taken as the canonical positions, and every later code is attached to each
    canonical code it contains as a substring. */
module Positions {
  import opened Sequences
  import opened Text

  /** Line 292: the number of canonical codes, `[:5]` of the distinct codes. */
  function CanonicalCount(distinct: seq<string>): nat
  {
    if |distinct| < 5 then |distinct| else 5
  }

  /** Line 292: `list(df3['Pos'].unique())[:5]`. */
  function Canonical(codes: seq<string>): seq<string>
  {
    var distinct := Distinct(codes);
    distinct[..CanonicalCount(distinct)]
  }

  /** Line 309: `list(df3['Pos'].unique())[5:]`. */
  function Later(codes: seq<string>): seq<string>
  {
    var distinct := Distinct(codes);
    distinct[CanonicalCount(distinct)..]
  }

  /** Line 311 as a mask: `pos in pos2`. */
  function HasPart(pos: string): string -> bool
  {
    (code: string) => Contains(pos, code)
  }

  /** The group of one canonical code: the code itself, then every later code
      containing it, in the order of first appearance. */
  function Group(pos: string, later: seq<string>): seq<string>
  {
    [pos] + Where(later, HasPart(pos))
  }

  /** The list `L` of lines 305-316: one group per canonical code, in order. */
  function PositionGroups(codes: seq<string>): seq<seq<string>>
  {
    var canon := Canonical(codes);
    var later := Later(codes);
    seq(|canon|, i requires 0 <= i < |canon| => Group(canon[i], later))
  }

  /** Lines 292 and 305-316: the outer loop walks the canonical codes and starts
      each group with the code itself; the inner loop walks the later distinct codes
      and appends those that contain it. The result is `PositionGroups(codes)`. */
  method BuildGroups(codes: seq<string>) returns (groups: seq<seq<string>>)
    ensures groups == PositionGroups(codes)
  {
    var distinct := Distinct(codes);
    var posList := distinct[..CanonicalCount(distinct)];
    var later := distinct[CanonicalCount(distinct)..];
    groups := [];
    var i := 0;
    while i < |posList|
      invariant 0 <= i <= |posList|
      invariant |groups| == i
      invariant forall k :: 0 <= k < i ==> groups[k] == Group(posList[k], later)
    {
      var pos := posList[i];
      var group := [pos];
      var j := 0;
      while j < |later|
        invariant 0 <= j <= |later|
        invariant group == [pos] + Where(later[..j], HasPart(pos))
      {
        var code := later[j];
        WhereAppend(later[..j], [code], HasPart(pos));
        assert later[..j + 1] == later[..j] + [code];
        if Contains(pos, code) {
          group := group + [code];
        }
        j := j + 1;
      }
      assert later[..j] == later;
      groups := groups + [group];
      i := i + 1;
    }
  }

  /** The canonical codes are the first at most five distinct codes; the later codes
      are the rest; the two share no code and together are every code once. */
  lemma CanonicalLater(codes: seq<string>)
    ensures |Canonical(codes)| == if |Distinct(codes)| < 5 then |Distinct(codes)| else 5
    ensures Canonical(codes) + Later(codes) == Distinct(codes)
    ensures forall c :: c in Canonical(codes) ==> c !in Later(codes)
    ensures forall c :: c in codes <==> c in Canonical(codes) || c in Later(codes)
  {
    var distinct := Distinct(codes);
    var n := CanonicalCount(distinct);
    DistinctMembers(codes);
    assert distinct == distinct[..n] + distinct[n..];
    forall c | c in distinct[..n] ensures c !in distinct[n..] {
      var i :| 0 <= i < n && distinct[..n][i] == c;
      forall j | 0 <= j < |distinct| - n ensures distinct[n..][j] != c {
        assert distinct[n..][j] == distinct[n + j] && distinct[i] == c;
      }
    }
  }

  /** There is one group per canonical code, in order; each group starts with its
      canonical code; its other members are exactly the later codes containing that
      code, each once, in the order of first appearance. */
  lemma GroupsShape(codes: seq<string>)
    ensures |PositionGroups(codes)| == |Canonical(codes)|
    ensures forall i :: 0 <= i < |PositionGroups(codes)| ==>
      PositionGroups(codes)[i][0] == Canonical(codes)[i]
    ensures forall i, c :: 0 <= i < |PositionGroups(codes)| ==>
      (c in PositionGroups(codes)[i][1..] <==> c in Later(codes) && Contains(Canonical(codes)[i], c))
    ensures forall i :: 0 <= i < |PositionGroups(codes)| ==>
      IsSubsequence(PositionGroups(codes)[i][1..], Later(codes))
  {
    var canon := Canonical(codes);
    var later := Later(codes);
    forall i | 0 <= i < |canon|
      ensures PositionGroups(codes)[i][1..] == Where(later, HasPart(canon[i]))
    {
    }
    forall i | 0 <= i < |canon|
      ensures forall c :: c in Where(later, HasPart(canon[i])) <==> c in later && Contains(canon[i], c)
      ensures IsSubsequence(Where(later, HasPart(canon[i])), later)
    {
      WhereMembers(later, HasPart(canon[i]));
      WhereIsSubsequence(later, HasPart(canon[i]));
    }
  }

  /** Which codes the groups reach: a code of the table is in some group exactly
      when it is canonical or contains a canonical code. A later code containing no
      canonical code is in no group, so the groups need not cover every code. */
  lemma GroupsCover(codes: seq<string>, c: string)
    requires c in codes
    ensures (exists i :: 0 <= i < |PositionGroups(codes)| && c in PositionGroups(codes)[i]) <==>
      c in Canonical(codes) || exists i :: 0 <= i < |Canonical(codes)| && Contains(Canonical(codes)[i], c)
  {
    var canon := Canonical(codes);
    var groups := PositionGroups(codes);
    CanonicalLater(codes);
    GroupsShape(codes);
    if exists i :: 0 <= i < |groups| && c in groups[i] {
      var i :| 0 <= i < |groups| && c in groups[i];
      assert groups[i] == [canon[i]] + groups[i][1..];
      if c != canon[i] {
        assert c in groups[i][1..];
      }
    }
    if c in canon {
      var i :| 0 <= i < |canon| && canon[i] == c;
      assert c in groups[i];
    } else if exists i :: 0 <= i < |canon| && Contains(canon[i], c) {
      var i :| 0 <= i < |canon| && Contains(canon[i], c);
      assert c in groups[i][1..];
    }
  }

  /** A table whose first five distinct codes are `PF`, `SG`, `SF`, `PG` and the
      compound `C-PF`, followed by the code `C`: every canonical code is longer than
      `C`, so `C` is in no group. */
  lemma UncoveredCode()
    ensures var codes := ["PF", "SG", "SF", "PG", "C-PF", "C"];
      "C" in codes && forall i :: 0 <= i < |PositionGroups(codes)| ==> "C" !in PositionGroups(codes)[i]
  {
    var codes := ["PF", "SG", "SF", "PG", "C-PF", "C"];
    var canon := ["PF", "SG", "SF", "PG", "C-PF"];
    DistinctOfUnique(codes);
    assert Canonical(codes) == canon;
    forall i | 0 <= i < |canon| ensures !Contains(canon[i], "C") {
      assert |canon[i]| >= 2;
    }
    GroupsCover(codes, "C");
  }
}
