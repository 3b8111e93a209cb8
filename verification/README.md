# Road simulator: distance report and notify-once approach rule

The `task:simulate` console command walks a GPS track point by point. At
each point it reports the distance in kilometres to every city loaded from
the database, in the order the cities were loaded, and it announces
"City X is approaching" when a city lies within 5.00 km. Each city name is
announced at most once for the whole run: the run-wide collection
`approachedCities` acts as a one-way latch keyed by the city's name.

This project models that loop (`SimulateCommand::execute`) and proves what
it guarantees. The geodesic distance is an opaque input. It is the
parameter `meter: (Point, City) -> real`, which gives the distance in metres.

Layout:

- `entity.dfy`, module `Entity`: `City(name, latitude, longitude)` is the
  field shape of the `City` entity (src/AppBundle/Entity/City.php:32-46).
  `Point(latitude, longitude)` is a track point.
- `latch.dfy`, module `Latch`: the notify-once latch. `Notify(latched, approaching)`
  returns the notices fired for one point. The latch afterwards is
  `latched + notices`.
- `simulation.dfy`, module `Simulation`: the functional model.
  - `ToKm` converts metres to kilometres.
  - `DistanceRow` gives one point's distances.
  - `Approaching` holds the names within range.
  - `Step` processes one point.
  - `Run` processes the track, each point seeing the latch left by the
    points before it.
  - `Approached` is the latch after a list of reports.
  - The lemmas relate these definitions to the run-wide promises.
- `command.dfy`, module `Command`: the command's three loops written
  imperatively (`MeasureCities`, `FireNotices`, `Execute`). Each method is
  proved equal to the functional model.

The model follows the code in these details:

- The latch is keyed by the city name, not by a unique reference id. Two
  cities that share a name share one notice.
- A notice is just the name. No distance or point index is attached.
- The distance formula is always Haversine. There is no formula option and
  no NaN guard.
- Approaching names are collected over the whole city list first. Notices
  are fired in a second loop. This gives the same order as deciding city by
  city, and `NotifyConcat` proves that.

## Model

| member | source | states |
|---|---|---|
| Simulation.ToKm | src/AppBundle/Command/SimulateCommand.php:118-119 | the kilometre value times 1000 is the metre distance; it is at most 5.00 exactly when the metre distance is at most 5000 (boundary included) |
| Simulation.DistanceRow | src/AppBundle/Command/SimulateCommand.php:116-121 | one distance per city, as many as there are cities, the i-th being city i's distance from the point in km |
| Simulation.ApproachingMembers | src/AppBundle/Command/SimulateCommand.php:122-125 | a name is in the point's approaching list iff some city with that name has distance at most APPROACH_DISTANCE = 5.00 km |
| Simulation.ApproachingConcat | src/AppBundle/Command/SimulateCommand.php:114-126 | the approaching list is built in city-list order: for a concatenated city list it is the concatenation of the two lists |
| Latch.Notify | src/AppBundle/Command/SimulateCommand.php:129-134 | a name is announced at this point iff it is approaching and not already latched; no name is announced twice at one point |
| Latch.NotifyConcat | src/AppBundle/Command/SimulateCommand.php:129-134 | announcing names one after another, with each announced name latched at once, is the same as announcing the batches in turn against the growing latch |
| Latch.NotifyKeepsUnique | src/AppBundle/Command/SimulateCommand.php:130-133 | a latch with no duplicate name still has none after a point's notices are added |
| Latch.NotifyInOrder | src/AppBundle/Command/SimulateCommand.php:129-134 | notices within one point come out in the order their names first occur in the approaching list |
| Simulation.StepReport | src/AppBundle/Command/SimulateCommand.php:113-134 | one point's report has city i's distance in km at position i, and its notices are, once each, exactly the names within range that were not latched before the point |
| Simulation.StepInOrder | src/AppBundle/Command/SimulateCommand.php:114-134 | within one point, notices keep the city-list order of the approaching names |
| Simulation.RunPrefix | src/AppBundle/Command/SimulateCommand.php:107-141 | running the command on the first k points yields exactly the first k reports of the full run |
| Simulation.RunAt | src/AppBundle/Command/SimulateCommand.php:107-135 | the report for point j is one step taken against the latch left by points 0..j-1 |
| Simulation.ApproachedGrows | src/AppBundle/Command/SimulateCommand.php:131-133 | approachedCities only grows: the latch after points 0..k-1 is a prefix of the latch after the whole track |
| Simulation.RunLatch | src/AppBundle/Command/SimulateCommand.php:104-135 | after the track, approachedCities has no duplicate and holds exactly the names of cities that were within 5 km at some point |
| Simulation.FirstApproachFires | src/AppBundle/Command/SimulateCommand.php:107-135 | a name is announced at point j iff a city of that name is within range at j and none was within range at any earlier point |
| Simulation.NoSecondNotice | src/AppBundle/Command/SimulateCommand.php:130-131 | a city that was within range at an earlier point is never announced again, even after leaving range and coming back |
| Simulation.LeaveAndReturnExample | src/AppBundle/Command/SimulateCommand.php:129-134 | one city, four points at 10, 2, 10 and 2 km: the city is announced at the second point and at no other |
| Simulation.NotifiedOnce | src/AppBundle/Command/SimulateCommand.php:129-134 | over the whole run each name occurs at most once among all notices, however many cities carry that name |
| Command.MeasureCities | src/AppBundle/Command/SimulateCommand.php:117-126 | the loop over cities yields city i's distance in km at position i and the approaching list of the functional model |
| Command.FireNotices | src/AppBundle/Command/SimulateCommand.php:129-135 | the loop over approaching names fires exactly the notices of the functional model and extends the latch by them |
| Command.Execute | src/AppBundle/Command/SimulateCommand.php:103-141 | the command's loops produce the reports of the functional run; the final approachedCities has no duplicate and holds exactly the names that came within range |

## Left out

- The Haversine and spherical Vincenty formulas (src/AppBundle/Utils/GPSDistanceMeter.php). They are floating-point trigonometry, so the distance in metres is the opaque parameter `meter`.
- Simulation.ToKm: does not model floating-point rounding, because distances are exact reals here. In the source, `metres / 1000 <= 5.00` is computed in floating point, so a distance within one rounding step of 5000 m might compare differently.
- Loading the track from a GPX file, the repository query for the cities, console formatting and output, interactive prompting, `usleep` between points, and timing with `microtime`. All of these are I/O. The cities and the track are parameters, and the output becomes the returned reports.
- `fileValidator`: it checks that a file exists on disk, which is I/O.
- The ORM mapping and the getters and setters of `City`, including its database id. The simulation never reads the id.
