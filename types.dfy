/** The record shapes the geometry helpers consume and produce (types/types.ts). */
module Types {
  import opened Wrappers

  /** A `[latitude, longitude]` pair in degrees. */
  type LatLng = (real, real)

  /**
   * The part of a segment record that the region computation reads: its start
   * and end coordinates. Either may be missing; the other fields of the record
   * (name, distance, grades, ...) are not used by the geometry helpers.
   */
  datatype Segment = Segment(startLatLng: Option<LatLng>, endLatLng: Option<LatLng>)

  /**
   * A map viewport: the centre point and the angular span shown on each axis.
   */
  datatype MapRegion = MapRegion(latitude: real, longitude: real, latitudeDelta: real, longitudeDelta: real)
}
