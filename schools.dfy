/** The records the school directory page works on. */
module Schools {

  datatype Option<+T> = None | Some(value: T)

  /** A position in decimal degrees, as the geolocation API reports it. */
  datatype Coords = Coords(lat: real, lng: real)

  /** One school of the fetched list.  `name` is both the text shown and the
      id of the school's element on the page. */
  datatype School = School(
    id: int,
    name: string,
    lat: real,
    lng: real,
    kind: string,
    county: string,
    highestDegree: string)

  /** Where the school is, for the distance key. */
  function Position(s: School): Coords {
    Coords(s.lat, s.lng)
  }
}
