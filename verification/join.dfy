/** The left merge of the county reference (the "MNIMI" names of the map's
    regions) with the map's data on "Maakond". */
module Join {
  import opened Wrappers
  import opened Aggregator

  /** One row of the merged table: the reference region and its "Valitud"
      value, missing when no row of the data names the region. */
  datatype Joined = Joined(region: string, value: Option<int>)

  /** The rows of the data whose county is `name`, in data order. */
  function Matches(name: string, data: seq<Selected>): (m: seq<Selected>)
    ensures forall k :: 0 <= k < |m| ==> m[k].county == name && m[k] in data
    ensures forall j :: 0 <= j < |data| && data[j].county == name ==> data[j] in m
  {
    if data == [] then []
    else (if data[0].county == name then [data[0]] else []) + Matches(name, data[1..])
  }

  /** A merged row is backed by the data: a value is that of a data row
      naming the region, and a missing value means no data row names it. */
  predicate Backed(j: Joined, data: seq<Selected>) {
    && (j.value.Some? ==> Selected(j.region, j.value.value) in data)
    && (j.value.None? ==> forall i :: 0 <= i < |data| ==> data[i].county != j.region)
  }

  /** The regions the merged rows name. */
  function Regions(rows: seq<Joined>): set<string> {
    set k | 0 <= k < |rows| :: rows[k].region
  }

  /** The merged rows name exactly the reference regions: each reference
      region at least once, and no other. */
  predicate Covers(reference: seq<string>, rows: seq<Joined>) {
    Regions(rows) == Names(reference)
  }

  /** The names a reference lists. */
  function Names(reference: seq<string>): set<string> {
    set i | 0 <= i < |reference| :: reference[i]
  }

  /** Every merged row is backed by the data. */
  predicate AllBacked(rows: seq<Joined>, data: seq<Selected>) {
    forall k :: 0 <= k < |rows| ==> Backed(rows[k], data)
  }

  /** The merged rows for one reference region: one per match, or a single
      row with a missing value when there is none. */
  function JoinRegion(name: string, data: seq<Selected>): (r: seq<Joined>)
    ensures |r| >= 1
    ensures forall k :: 0 <= k < |r| ==> r[k].region == name
    ensures AllBacked(r, data)
  {
    var m := Matches(name, data);
    if m == [] then [Joined(name, None)]
    else seq(|m|, k requires 0 <= k < |m| => Joined(name, Some(m[k].value)))
  }

  /** `reference.merge(data, how="left", left_on="MNIMI", right_on="Maakond")`:
      the reference regions in reference order, each with its matches in
      data order. */
  function LeftJoin(reference: seq<string>, data: seq<Selected>): (r: seq<Joined>)
    ensures |r| >= |reference|
    ensures Covers(reference, r)
    ensures AllBacked(r, data)
  {
    if reference == [] then []
    else
      var head := JoinRegion(reference[0], data);
      var rest := LeftJoin(reference[1..], data);
      BlocksJoin(reference, data, head, rest);
      head + rest
  }

  /** The first region's block followed by the merge of the other regions
      is the merge of all of them. */
  lemma BlocksJoin(reference: seq<string>, data: seq<Selected>, head: seq<Joined>, rest: seq<Joined>)
    requires |reference| > 0 && |head| >= 1
    requires forall k :: 0 <= k < |head| ==> head[k].region == reference[0]
    requires AllBacked(head, data)
    requires Covers(reference[1..], rest)
    requires AllBacked(rest, data)
    ensures Covers(reference, head + rest)
    ensures AllBacked(head + rest, data)
  {
    BlocksCover(reference, head, rest);
    var all := head + rest;
    forall k | 0 <= k < |all|
      ensures Backed(all[k], data)
    {
      if k < |head| {
        assert all[k] == head[k];
      } else {
        assert all[k] == rest[k - |head|];
      }
    }
  }

  /** The region side of `BlocksJoin`. */
  lemma BlocksCover(reference: seq<string>, head: seq<Joined>, rest: seq<Joined>)
    requires |reference| > 0 && |head| >= 1
    requires forall k :: 0 <= k < |head| ==> head[k].region == reference[0]
    requires Covers(reference[1..], rest)
    ensures Covers(reference, head + rest)
  {
    var all := head + rest;
    assert Regions(head) == {reference[0]} by {
      assert head[0].region == reference[0];
    }
    assert Regions(all) == Regions(head) + Regions(rest) by {
      forall x | x in Regions(all) ensures x in Regions(head) + Regions(rest) {
        var k :| 0 <= k < |all| && all[k].region == x;
        if k < |head| { assert all[k] == head[k]; } else { assert all[k] == rest[k - |head|]; }
      }
      forall x | x in Regions(rest) ensures x in Regions(all) {
        var k :| 0 <= k < |rest| && rest[k].region == x;
        assert all[|head| + k] == rest[k];
      }
      forall x | x in Regions(head) ensures x in Regions(all) {
        var k :| 0 <= k < |head| && head[k].region == x;
        assert all[k] == head[k];
      }
    }
    var tail := reference[1..];
    assert Names(reference) == {reference[0]} + Names(tail) by {
      forall x | x in Names(reference)
        ensures x in {reference[0]} + Names(tail)
      {
        var i :| 0 <= i < |reference| && reference[i] == x;
        if i > 0 { assert tail[i - 1] == x; }
      }
      forall x | x in Names(tail)
        ensures x in Names(reference)
      {
        var i :| 0 <= i < |tail| && tail[i] == x;
        assert reference[i + 1] == x;
      }
    }
  }





  /** The value of the first data row for `name`, if any. */
  function Lookup(name: string, data: seq<Selected>): (v: Option<int>)
    ensures v.None? <==> forall j :: 0 <= j < |data| ==> data[j].county != name
    ensures v.Some? ==> exists j :: 0 <= j < |data| && data[j] == Selected(name, v.value)
  {
    if data == [] then None
    else if data[0].county == name then Some(data[0].value)
    else Lookup(name, data[1..])
  }

  predicate DistinctCounties(data: seq<Selected>) {
    forall j, l :: 0 <= j < l < |data| ==> data[j].county != data[l].county
  }

  /** With one data row per county, matching finds at most one row. */
  lemma {:induction false} MatchesDistinct(name: string, data: seq<Selected>)
    requires DistinctCounties(data)
    ensures Matches(name, data) == if Lookup(name, data).Some? then [Selected(name, Lookup(name, data).value)] else []
  {
    if data != [] {
      MatchesDistinct(name, data[1..]);
      if data[0].county == name {
        assert forall j :: 0 <= j < |data[1..]| ==> data[1..][j].county != name by {
          forall j | 0 <= j < |data[1..]| ensures data[1..][j].county != name {
            assert data[1..][j] == data[j + 1];
          }
        }
      }
    }
  }

  /** With one data row per county, a region's block is a single row. */
  lemma JoinRegionDistinct(name: string, data: seq<Selected>)
    requires DistinctCounties(data)
    ensures JoinRegion(name, data) == [Joined(name, Lookup(name, data))]
  {
    MatchesDistinct(name, data);
  }

  /** With one data row per county, the merge has exactly one row per
      reference region, in reference order, carrying the region's value or
      a missing value when the data has no row for it. */
  lemma {:induction false} LeftJoinOneRowPerRegion(reference: seq<string>, data: seq<Selected>)
    requires DistinctCounties(data)
    ensures |LeftJoin(reference, data)| == |reference|
    ensures forall i :: 0 <= i < |reference| ==>
      LeftJoin(reference, data)[i] == Joined(reference[i], Lookup(reference[i], data))
  {
    if reference != [] {
      JoinRegionDistinct(reference[0], data);
      LeftJoinOneRowPerRegion(reference[1..], data);
      var head := [Joined(reference[0], Lookup(reference[0], data))];
      var rest := LeftJoin(reference[1..], data);
      var all := LeftJoin(reference, data);
      assert all == head + rest;
      forall i | 0 <= i < |reference|
        ensures all[i] == Joined(reference[i], Lookup(reference[i], data))
      {
        if i > 0 {
          assert all[i] == rest[i - 1];
          assert reference[i] == reference[1..][i - 1];
        }
      }
    }
  }
}
