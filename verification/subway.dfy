/** The value entities of a subway line: stations, sections (directed,
    weighted edges between two stations on one line) and the two kinds of
    error the section aggregate reports. */
module Subway {

  /** A station, compared by value (its identifier). */
  datatype Station = Station(id: int)

  /** A directed edge `up -> down` of one line, with its distance. */
  datatype Section = Section(id: int, lineId: int, up: Station, down: Station, distance: int)
  {
    /** A copy of this section that starts at `station`. */
    function UpdateUpStation(station: Station): Section
    {
      this.(up := station)
    }

    /** A copy of this section that ends at `station`. */
    function UpdateDownStation(station: Station): Section
    {
      this.(down := station)
    }

    /** A copy of this section with distance `d`. */
    function UpdateDistance(d: int): Section
    {
      this.(distance := d)
    }
  }

  /** The error kinds: a rejected request, or a station or section that cannot be found. */
  datatype Error = InvalidRequest | EntityNotFound

  datatype Result<T> = Ok(value: T) | Err(error: Error)

  datatype Option<T> = None | Some(value: T)
}
