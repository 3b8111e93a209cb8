/** The values the simulation works on: a city loaded from the store and a
    point of the travelled track. Both are plain immutable records; the ORM
    identity of a city plays no part in the simulation. */
module Entity {

  /** A city: its display name and its GPS position in degrees. */
  datatype City = City(name: string, latitude: real, longitude: real)

  /** One point of the track, in degrees. */
  datatype Point = Point(latitude: real, longitude: real)
}
