/** Waypoint records shared by the deduplication script: the fields that
    `parse_waypoints` produces for one `<wpt>` element, and the distance
    function the script compares them with. */
module GpxRecords {

  /** A parsed waypoint. For `name`, `desc` and `cmt` a missing or empty
      element is the empty string; the writer reads these three through `or`,
      which treats `None` and `""` alike. `sym` holds a text symbol only. */
  datatype Waypoint = Waypoint(
    lat: real,
    lon: real,
    name: string,
    desc: string,
    cmt: string,
    sym: string,
    time: string)

  /** The great-circle distance between two waypoints in metres. Its formula
      is not modelled: every result holds for every function of this type,
      symmetric or not. */
  type Distance = (Waypoint, Waypoint) -> real

  datatype Option<+T> = None | Some(value: T)
}
