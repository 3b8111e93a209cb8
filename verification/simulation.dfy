/** The per-point logic of the road simulation: for every point of the track,
    the distance to every city and the "approaching" notices, fired once per
    city name for the whole run.

    The geodesic distance itself is not modelled: it is the parameter
    `meter`, the distance in metres from a track point to a city. */
module Simulation {
  import opened Entity
  import opened Latch

  /** Radius of an approach, in kilometres; a city at exactly this distance counts. */
  const ApproachDistance: real := 5.00

  const MetresPerKm: real := 1000.0

  /** A distance in metres between a track point and a city. */
  type DistanceMeter = (Point, City) -> real

  /** Converts metres to kilometres, as the command does before comparing. */
  function ToKm(metres: real): (km: real)
    ensures km * MetresPerKm == metres
    ensures km <= ApproachDistance <==> metres <= 5000.0
  {
    metres / MetresPerKm
  }

  /** Some city called `name` lies within the approach radius of `p`. */
  predicate NearAt(meter: DistanceMeter, cities: seq<City>, p: Point, name: string) {
    exists i :: 0 <= i < |cities| && cities[i].name == name && ToKm(meter(p, cities[i])) <= ApproachDistance
  }

  /** The distances in kilometres from `p` to every city, in city-list order. */
  function DistanceRow(meter: DistanceMeter, p: Point, cities: seq<City>): (row: seq<real>)
    ensures |row| == |cities|
    ensures forall i :: 0 <= i < |cities| ==> row[i] == ToKm(meter(p, cities[i]))
  {
    if cities == [] then []
    else [ToKm(meter(p, cities[0]))] + DistanceRow(meter, p, cities[1..])
  }

  /** The names of the cities whose distance is within the approach radius,
      in city-list order; a name shared by several near cities occurs once
      for each of them. */
  function Approaching(cities: seq<City>, row: seq<real>): (names: seq<string>)
    requires |row| == |cities|
    ensures |names| <= |cities|
  {
    if cities == [] then []
    else (if row[0] <= ApproachDistance then [cities[0].name] else []) + Approaching(cities[1..], row[1..])
  }

  /** A name is collected exactly when some city of that name is within the radius. */
  lemma {:induction false} ApproachingMembers(cities: seq<City>, row: seq<real>)
    requires |row| == |cities|
    ensures forall n :: n in Approaching(cities, row) <==>
      exists i :: 0 <= i < |cities| && cities[i].name == n && row[i] <= ApproachDistance
    decreases |cities|
  {
    if cities != [] {
      var rest := Approaching(cities[1..], row[1..]);
      ApproachingMembers(cities[1..], row[1..]);
      forall n | n in rest
        ensures exists i :: 1 <= i < |cities| && cities[i].name == n && row[i] <= ApproachDistance
      {
        var i :| 0 <= i < |cities[1..]| && cities[1..][i].name == n && row[1..][i] <= ApproachDistance;
        assert cities[i + 1].name == n && row[i + 1] <= ApproachDistance;
      }
      forall n, i | 1 <= i < |cities| && cities[i].name == n && row[i] <= ApproachDistance
        ensures n in rest
      {
        assert cities[1..][i - 1].name == n && row[1..][i - 1] <= ApproachDistance;
      }
    }
  }

  /** The names are collected city by city: the list for a longer city list
      extends the list for its prefix. */
  lemma {:induction false} ApproachingConcat(c1: seq<City>, c2: seq<City>, r1: seq<real>, r2: seq<real>)
    requires |r1| == |c1| && |r2| == |c2|
    ensures Approaching(c1 + c2, r1 + r2) == Approaching(c1, r1) + Approaching(c2, r2)
    decreases |c1|
  {
    if c1 == [] {
      assert c1 + c2 == c2 && r1 + r2 == r2;
    } else {
      assert (c1 + c2)[0] == c1[0] && (r1 + r2)[0] == r1[0];
      assert (c1 + c2)[1..] == c1[1..] + c2;
      assert (r1 + r2)[1..] == r1[1..] + r2;
      ApproachingConcat(c1[1..], c2, r1[1..], r2);
    }
  }

  /** What the command reports for one track point. */
  datatype PointReport = PointReport(distances: seq<real>, notices: seq<string>)

  /** One iteration of the loop over the track: the distance row, the
      approaching names, and the notices for those names not in `approached`. */
  function Step(meter: DistanceMeter, cities: seq<City>, approached: seq<string>, p: Point): (report: PointReport)
    ensures |report.distances| == |cities|
  {
    var row := DistanceRow(meter, p, cities);
    PointReport(row, Notify(approached, Approaching(cities, row)))
  }

  /** One point's report holds one distance per city, in city-list order, and
      announces, once each, exactly the names within range that are not
      latched yet. */
  lemma StepReport(meter: DistanceMeter, cities: seq<City>, approached: seq<string>, p: Point)
    ensures var report := Step(meter, cities, approached, p);
      && (forall i :: 0 <= i < |cities| ==> report.distances[i] == ToKm(meter(p, cities[i])))
      && (forall n :: n in report.notices <==> NearAt(meter, cities, p, n) && n !in approached)
      && NoDuplicates(report.notices)
  {
    ApproachingMembers(cities, DistanceRow(meter, p, cities));
  }

  /** The run-wide latch after the given reports: all their notices, in order. */
  function Approached(reports: seq<PointReport>): seq<string>
    decreases |reports|
  {
    if reports == [] then []
    else Approached(reports[..|reports| - 1]) + reports[|reports| - 1].notices
  }

  /** The reports for the whole track, point by point, each point seeing the
      latch left by the points before it. */
  function Run(meter: DistanceMeter, cities: seq<City>, track: seq<Point>): (reports: seq<PointReport>)
    ensures |reports| == |track|
    decreases |track|
  {
    if track == [] then []
    else
      var earlier := Run(meter, cities, track[..|track| - 1]);
      earlier + [Step(meter, cities, Approached(earlier), track[|track| - 1])]
  }

  /** Processing a prefix of the track gives a prefix of the reports. */
  lemma {:induction false} RunPrefix(meter: DistanceMeter, cities: seq<City>, track: seq<Point>, k: nat)
    requires k <= |track|
    ensures Run(meter, cities, track[..k]) == Run(meter, cities, track)[..k]
    decreases |track|
  {
    if k < |track| {
      var shorter := track[..|track| - 1];
      RunPrefix(meter, cities, shorter, k);
      assert shorter[..k] == track[..k];
    } else {
      assert track[..k] == track;
    }
  }

  /** The report for point `j` is the step taken with the latch of points `0..j-1`. */
  lemma RunAt(meter: DistanceMeter, cities: seq<City>, track: seq<Point>, j: nat)
    requires j < |track|
    ensures Run(meter, cities, track)[j]
      == Step(meter, cities, Approached(Run(meter, cities, track[..j])), track[j])
  {
    RunPrefix(meter, cities, track, j + 1);
    assert track[..j + 1][..j] == track[..j];
  }

  /** The latch only grows: the latch after points `0..k-1` is a prefix of
      the latch after the whole track. */
  lemma {:induction false} ApproachedGrows(reports: seq<PointReport>, k: nat)
    requires k <= |reports|
    ensures Approached(reports[..k]) <= Approached(reports)
    decreases |reports|
  {
    if k < |reports| {
      var shorter := reports[..|reports| - 1];
      ApproachedGrows(shorter, k);
      assert shorter[..k] == reports[..k];
    } else {
      assert reports[..k] == reports;
    }
  }

  /** The latch after a non-empty track is the latch before its last point
      followed by that point's notices. */
  lemma RunLast(meter: DistanceMeter, cities: seq<City>, track: seq<Point>)
    requires track != []
    ensures var earlier := Run(meter, cities, track[..|track| - 1]);
      Approached(Run(meter, cities, track))
        == Approached(earlier) + Step(meter, cities, Approached(earlier), track[|track| - 1]).notices
  {
  }

  /** Some city called `name` came within the approach radius at some point of `track`. */
  predicate EverNear(meter: DistanceMeter, cities: seq<City>, track: seq<Point>, name: string) {
    exists j :: 0 <= j < |track| && NearAt(meter, cities, track[j], name)
  }

  /** A name has been near along a non-empty track exactly when it was near
      before the last point or is near at the last point. */
  lemma EverNearLast(meter: DistanceMeter, cities: seq<City>, track: seq<Point>, name: string)
    requires track != []
    ensures EverNear(meter, cities, track, name) <==>
      EverNear(meter, cities, track[..|track| - 1], name) || NearAt(meter, cities, track[|track| - 1], name)
  {
  }

  /** After the whole track the latch holds no name twice, and holds exactly
      the names of the cities that came within the approach radius at some
      point. */
  lemma {:induction false} RunLatch(meter: DistanceMeter, cities: seq<City>, track: seq<Point>)
    ensures NoDuplicates(Approached(Run(meter, cities, track)))
    ensures forall n :: n in Approached(Run(meter, cities, track)) <==> EverNear(meter, cities, track, n)
    decreases |track|
  {
    if track != [] {
      var shorter := track[..|track| - 1];
      var p := track[|track| - 1];
      var latched := Approached(Run(meter, cities, shorter));
      RunLatch(meter, cities, shorter);
      RunLast(meter, cities, track);
      NotifyKeepsUnique(latched, Approaching(cities, DistanceRow(meter, p, cities)));
      StepReport(meter, cities, latched, p);
      forall n
        ensures n in Approached(Run(meter, cities, track)) <==> EverNear(meter, cities, track, n)
      {
        EverNearLast(meter, cities, track, n);
      }
    }
  }

  /** A name is announced at point `j` exactly when some city of that name is
      within range at `j` and no city of that name was within range at any
      earlier point: the notice fires at the first such point. */
  lemma FirstApproachFires(meter: DistanceMeter, cities: seq<City>, track: seq<Point>, j: nat, n: string)
    requires j < |track|
    ensures n in Run(meter, cities, track)[j].notices <==>
      NearAt(meter, cities, track[j], n) && forall k :: 0 <= k < j ==> !NearAt(meter, cities, track[k], n)
  {
    RunAt(meter, cities, track, j);
    RunLatch(meter, cities, track[..j]);
    StepReport(meter, cities, Approached(Run(meter, cities, track[..j])), track[j]);
    assert forall k :: 0 <= k < j ==> track[..j][k] == track[k];
  }

  /** Each name is announced at most once in the whole run, whatever the
      number of cities that carry it and however often they come in range. */
  lemma NotifiedOnce(meter: DistanceMeter, cities: seq<City>, track: seq<Point>, n: string)
    ensures multiset(Approached(Run(meter, cities, track)))[n] <= 1
  {
    RunLatch(meter, cities, track);
    UniqueCountsOnce(Approached(Run(meter, cities, track)), n);
  }

  /** In a list without duplicates every element occurs at most once. */
  lemma {:induction false} UniqueCountsOnce(s: seq<string>, n: string)
    requires NoDuplicates(s)
    ensures multiset(s)[n] <= 1
    decreases |s|
  {
    if s != [] {
      assert s == [s[0]] + s[1..];
      UniqueCountsOnce(s[1..], n);
      if s[0] == n {
        assert n !in s[1..];
      }
    }
  }

  /** A city that comes within range, leaves, and comes back is announced
      only the first time. */
  lemma NoSecondNotice(meter: DistanceMeter, cities: seq<City>, track: seq<Point>, a: nat, b: nat, n: string)
    requires a < b < |track|
    requires NearAt(meter, cities, track[a], n)
    ensures n !in Run(meter, cities, track)[b].notices
  {
    FirstApproachFires(meter, cities, track, b, n);
  }

  /** Within one point, the notices keep the city-list order of the names
      that were found within range. */
  lemma StepInOrder(meter: DistanceMeter, cities: seq<City>, approached: seq<string>, p: Point)
    ensures var names := Approaching(cities, DistanceRow(meter, p, cities));
      var notices := Step(meter, cities, approached, p).notices;
      forall a, b :: 0 <= a < b < |notices| ==> FirstIndex(names, notices[a]) < FirstIndex(names, notices[b])
  {
    NotifyInOrder(approached, Approaching(cities, DistanceRow(meter, p, cities)));
  }
  /** A worked run: one city, and a track whose four points lie 10 km, 2 km,
      10 km and 2 km from it. The city is announced at the second point and
      at no other. */
  lemma LeaveAndReturnExample(meter: DistanceMeter, city: City, track: seq<Point>)
    requires |track| == 4
    requires meter(track[0], city) == 10000.0 && meter(track[1], city) == 2000.0
    requires meter(track[2], city) == 10000.0 && meter(track[3], city) == 2000.0
    ensures forall j, n :: 0 <= j < 4 ==>
      (n in Run(meter, [city], track)[j].notices <==> j == 1 && n == city.name)
  {
    var cities := [city];
    forall j, n | 0 <= j < 4
      ensures NearAt(meter, cities, track[j], n) <==> n == city.name && (j == 1 || j == 3)
    {
      if n == city.name && (j == 1 || j == 3) {
        assert cities[0].name == n;
      }
    }
    forall j, n | 0 <= j < 4
      ensures n in Run(meter, cities, track)[j].notices <==> j == 1 && n == city.name
    {
      FirstApproachFires(meter, cities, track, j, n);
    }
  }
}
