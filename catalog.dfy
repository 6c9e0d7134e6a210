/** The facility catalog: the public listing and the loose name search that
    turns the user's query into one facility. */
module Catalog {
  import opened Schema
  import opened Text
  import opened Search
  import opened Errors

  /** Publicly listed facilities carry publication type code 1. */
  predicate IsPublic(f: Facility)
  {
    f.publicationTypeCode == 1
  }

  /** The names the listing shows: those of the public facilities, in catalog order. */
  function Listed(fs: seq<Facility>): seq<string>
  {
    if |fs| == 0 then []
    else (if IsPublic(fs[0]) then [fs[0].facilityName] else []) + Listed(fs[1..])
  }

  /** Listing a catalog piecewise lists it in one go: catalog order is kept. */
  lemma {:induction false} ListedAppend(a: seq<Facility>, b: seq<Facility>)
    ensures Listed(a + b) == Listed(a) + Listed(b)
  {
    if |a| == 0 {
      assert a + b == b;
    } else {
      var head := if IsPublic(a[0]) then [a[0].facilityName] else [];
      calc {
        Listed(a + b);
        { assert (a + b)[0] == a[0]; assert (a + b)[1..] == a[1..] + b; }
        head + Listed(a[1..] + b);
        { ListedAppend(a[1..], b); }
        head + (Listed(a[1..]) + Listed(b));
      }
    }
  }

  /** The listing is the subsequence of catalog names picked out by the public
      facilities: `idx` gives, in increasing order, the catalog position of
      each listed name, and every public facility has its position in `idx`. */
  lemma {:induction false} ListedPositions(fs: seq<Facility>) returns (idx: seq<nat>)
    ensures |idx| == |Listed(fs)|
    ensures forall k :: 0 <= k < |idx| ==>
              idx[k] < |fs| && IsPublic(fs[idx[k]]) && Listed(fs)[k] == fs[idx[k]].facilityName
    ensures forall k, l :: 0 <= k < l < |idx| ==> idx[k] < idx[l]
    ensures forall i :: 0 <= i < |fs| && IsPublic(fs[i]) ==> i in idx
  {
    if |fs| == 0 {
      idx := [];
    } else {
      var rest := ListedPositions(fs[1..]);
      idx := Head(fs) + Shift(rest);
      StepNames(fs, rest);
      StepIncreasing(fs, rest);
      StepCovers(fs, rest);
    }
  }

  /** The position of the first facility, if the listing shows it. */
  function Head(fs: seq<Facility>): seq<nat>
    requires |fs| > 0
  {
    if IsPublic(fs[0]) then [0] else []
  }

  /** Positions in the catalog's tail, as positions in the whole catalog. */
  function Shift(rest: seq<nat>): seq<nat>
  {
    seq(|rest|, k requires 0 <= k < |rest| => rest[k] + 1)
  }

  /** One step of the listing's positions: each position names a public facility
      and its listed name. */
  lemma StepNames(fs: seq<Facility>, rest: seq<nat>)
    requires |fs| > 0 && |rest| == |Listed(fs[1..])|
    requires forall k :: 0 <= k < |rest| ==>
               rest[k] < |fs[1..]| && IsPublic(fs[1..][rest[k]]) && Listed(fs[1..])[k] == fs[1..][rest[k]].facilityName
    ensures |Head(fs) + Shift(rest)| == |Listed(fs)|
    ensures forall k :: 0 <= k < |Head(fs) + Shift(rest)| ==>
              (Head(fs) + Shift(rest))[k] < |fs| && IsPublic(fs[(Head(fs) + Shift(rest))[k]])
              && Listed(fs)[k] == fs[(Head(fs) + Shift(rest))[k]].facilityName
  {
    var tail := fs[1..];
    forall k | 0 <= k < |rest|
      ensures rest[k] < |fs| - 1 && tail[rest[k]] == fs[rest[k] + 1]
    {
    }
    StepNamesOn(fs, rest, Listed(fs), Listed(tail));
  }

  /** The name step of the listing's positions, over the listed names as plain sequences. */
  lemma StepNamesOn(fs: seq<Facility>, rest: seq<nat>, names: seq<string>, tailNames: seq<string>)
    requires |fs| > 0
    requires names == (if IsPublic(fs[0]) then [fs[0].facilityName] else []) + tailNames
    requires |rest| == |tailNames|
    requires forall k :: 0 <= k < |rest| ==>
               rest[k] < |fs| - 1 && IsPublic(fs[rest[k] + 1]) && tailNames[k] == fs[rest[k] + 1].facilityName
    ensures |Head(fs) + Shift(rest)| == |names|
    ensures forall k :: 0 <= k < |Head(fs) + Shift(rest)| ==>
              (Head(fs) + Shift(rest))[k] < |fs| && IsPublic(fs[(Head(fs) + Shift(rest))[k]])
              && names[k] == fs[(Head(fs) + Shift(rest))[k]].facilityName
  {
    var pre, idx := Head(fs), Head(fs) + Shift(rest);
    forall k | 0 <= k < |idx|
      ensures idx[k] < |fs| && IsPublic(fs[idx[k]]) && names[k] == fs[idx[k]].facilityName
    {
      if k >= |pre| {
        var j := k - |pre|;
        assert idx[k] == rest[j] + 1;
        assert names[k] == tailNames[j];
      }
    }
  }

  /** One step of the listing's positions: they stay in increasing order. */
  lemma StepIncreasing(fs: seq<Facility>, rest: seq<nat>)
    requires |fs| > 0
    requires forall k, l :: 0 <= k < l < |rest| ==> rest[k] < rest[l]
    ensures forall k, l :: 0 <= k < l < |Head(fs) + Shift(rest)| ==>
              (Head(fs) + Shift(rest))[k] < (Head(fs) + Shift(rest))[l]
  {
    var pre, idx := Head(fs), Head(fs) + Shift(rest);
    forall k, l | 0 <= k < l < |idx| ensures idx[k] < idx[l] {
      if k >= |pre| {
        assert idx[k] == rest[k - |pre|] + 1 && idx[l] == rest[l - |pre|] + 1;
      } else {
        assert idx[k] == 0 && idx[l] == rest[l - 1] + 1;
      }
    }
  }

  /** One step of the listing's positions: every public facility keeps its position. */
  lemma StepCovers(fs: seq<Facility>, rest: seq<nat>)
    requires |fs| > 0
    requires forall i :: 0 <= i < |fs[1..]| && IsPublic(fs[1..][i]) ==> i in rest
    ensures forall i :: 0 <= i < |fs| && IsPublic(fs[i]) ==> i in Head(fs) + Shift(rest)
  {
    var pre, idx := Head(fs), Head(fs) + Shift(rest);
    forall i | 0 <= i < |fs| && IsPublic(fs[i]) ensures i in idx {
      if i > 0 {
        assert IsPublic(fs[1..][i - 1]);
        var k :| 0 <= k < |rest| && rest[k] == i - 1;
        assert idx[k + |pre|] == i;
      }
    }
  }

  /** The catalog's text form, as printed for `--list`: one line per public
      facility name, in catalog order. */
  method FormatFacilities(facilities: Facilities) returns (text: string)
    ensures text == Unlines(Listed(facilities.items))
  {
    var fs := facilities.items;
    text := "";
    for i := 0 to |fs|
      invariant text == Unlines(Listed(fs[..i]))
    {
      var facility := fs[i];
      if IsPublic(facility) {
        text := text + facility.facilityName + "\n";
      }
      assert Listed([facility]) == if IsPublic(facility) then [facility.facilityName] else [];
      assert fs[..i + 1] == fs[..i] + [facility];
      ListedAppend(fs[..i], [facility]);
      UnlinesAppend(Listed(fs[..i]), Listed([facility]));
    }
    assert fs[..|fs|] == fs;
  }

  /** A facility matches a query when its case-folded name contains the case-folded query. */
  predicate Matches(f: Facility, query: string)
  {
    Contains(Lower(f.facilityName), Lower(query))
  }

  function MatchesQuery(query: string): Facility -> bool
  {
    (f: Facility) => Matches(f, query)
  }

  /** The facility a query designates: the first match in catalog order. */
  function Resolve(fs: seq<Facility>, query: string): (r: Result<Facility>)
    ensures r == Err(FacilityNotFound(query)) <==> forall i :: 0 <= i < |fs| ==> !Matches(fs[i], query)
    ensures r.Err? ==> r == Err(FacilityNotFound(query))
    ensures forall i :: IsFirst(fs, MatchesQuery(query), i) ==> r == Ok(fs[i])
    ensures r.Ok? ==> exists i :: IsFirst(fs, MatchesQuery(query), i) && r.value == fs[i]
  {
    match FindFirst(fs, MatchesQuery(query))
    case None => Err(FacilityNotFound(query))
    case Some(i) => Ok(fs[i])
  }

  /** Queries that fold to the same text designate the same facility. */
  lemma ResolveIgnoresCase(fs: seq<Facility>, q1: string, q2: string)
    requires Lower(q1) == Lower(q2)
    ensures Resolve(fs, q1).Ok? <==> Resolve(fs, q2).Ok?
    ensures Resolve(fs, q1).Ok? ==> Resolve(fs, q1).value == Resolve(fs, q2).value
  {
    forall f: Facility ensures MatchesQuery(q1)(f) == MatchesQuery(q2)(f) {
    }
    match FindFirst(fs, MatchesQuery(q1))
    case None =>
    case Some(i) =>
      assert IsFirst(fs, MatchesQuery(q2), i);
  }

  /** A query resolves as its own case folding does. */
  lemma ResolveFoldedQuery(fs: seq<Facility>, query: string)
    ensures Resolve(fs, query).Ok? <==> Resolve(fs, Lower(query)).Ok?
    ensures Resolve(fs, query).Ok? ==> Resolve(fs, query).value == Resolve(fs, Lower(query)).value
  {
    LowerIdempotent(query);
    ResolveIgnoresCase(fs, query, Lower(query));
  }

  /** A facility with a matching name earlier in the catalog always wins:
      facilities added after a match never change the result. */
  lemma ResolveFirstMatchWins(fs: seq<Facility>, more: seq<Facility>, query: string, i: int)
    requires 0 <= i < |fs| && Matches(fs[i], query)
    ensures Resolve(fs + more, query) == Resolve(fs, query)
  {
    FindFirstPrefix(fs, more, MatchesQuery(query), i);
    var k := FindFirst(fs, MatchesQuery(query)).value;
    assert (fs + more)[k] == fs[k];
  }
}
