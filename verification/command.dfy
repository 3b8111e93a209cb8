/** The simulate command's main loop, written as the command writes it: a
    loop over the track, and inside it a loop over the cities that builds the
    distance row and the approaching names, then a loop over those names that
    fires the notices not yet latched. Console output becomes the returned
    reports. */
module Command {
  import opened Entity
  import opened Latch
  import opened Simulation

  /** The loop over the cities for one point: the distance to each city in
      kilometres, and the names of the cities within the approach radius. */
  method MeasureCities(meter: DistanceMeter, cities: seq<City>, point: Point)
    returns (distances: seq<real>, approachingCities: seq<string>)
    ensures |distances| == |cities|
    ensures forall i :: 0 <= i < |cities| ==> distances[i] == ToKm(meter(point, cities[i]))
    ensures approachingCities == Approaching(cities, distances)
  {
    distances := [];
    approachingCities := [];
    for i := 0 to |cities|
      invariant |distances| == i
      invariant forall j :: 0 <= j < i ==> distances[j] == ToKm(meter(point, cities[j]))
      invariant approachingCities == Approaching(cities[..i], distances)
    {
      var city := cities[i];
      var distance := meter(point, city) / MetresPerKm;
      ApproachingConcat(cities[..i], [city], distances, [distance]);
      assert cities[..i + 1] == cities[..i] + [city];
      distances := distances + [distance];
      if distance <= ApproachDistance {
        approachingCities := approachingCities + [city.name];
      }
    }
    assert cities[..|cities|] == cities;
  }

  /** The loop over the approaching names: each name not in the latch is
      announced and latched straight away. */
  method FireNotices(approachedCities: seq<string>, approachingCities: seq<string>)
    returns (notices: seq<string>, latched: seq<string>)
    ensures latched == approachedCities + notices
    ensures notices == Notify(approachedCities, approachingCities)
  {
    notices := [];
    latched := approachedCities;
    for a := 0 to |approachingCities|
      invariant notices == Notify(approachedCities, approachingCities[..a])
      invariant latched == approachedCities + notices
    {
      var name := approachingCities[a];
      NotifySnoc(approachedCities, approachingCities[..a], name);
      assert approachingCities[..a + 1] == approachingCities[..a] + [name];
      if name !in latched {
        notices := notices + [name];
        latched := latched + [name];
      }
    }
    assert approachingCities[..|approachingCities|] == approachingCities;
  }

  /** The whole run: the reports agree with the point-by-point model, and the
      final latch holds, once each, exactly the names that came within range. */
  method Execute(meter: DistanceMeter, cities: seq<City>, track: seq<Point>)
    returns (reports: seq<PointReport>, approachedCities: seq<string>)
    ensures reports == Run(meter, cities, track)
    ensures approachedCities == Approached(reports)
    ensures NoDuplicates(approachedCities)
    ensures forall n :: n in approachedCities <==> EverNear(meter, cities, track, n)
  {
    reports := [];
    approachedCities := [];
    for k := 0 to |track|
      invariant reports == Run(meter, cities, track[..k])
      invariant approachedCities == Approached(reports)
    {
      var point := track[k];
      var distances, approachingCities := MeasureCities(meter, cities, point);
      var notices;
      var before := approachedCities;
      notices, approachedCities := FireNotices(approachedCities, approachingCities);
      var report := PointReport(distances, notices);
      assert distances == DistanceRow(meter, point, cities);
      assert report == Step(meter, cities, before, point);
      assert track[..k + 1][..k] == track[..k];
      assert (reports + [report])[..|reports|] == reports;
      reports := reports + [report];
    }
    assert track[..|track|] == track;
    RunLatch(meter, cities, track);
  }
}
