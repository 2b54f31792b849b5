/**
 * The records shared by the roster, the map and the application shell: the
 * location rows the backend returns, the member records built from them, and
 * the one decoding step (`rows.map(loc => ({ name: loc.email, ... }))`) that
 * both the group view and the application shell perform, each with its own
 * role literal and its own treatment of the timestamp.
 */
module Records {
  import opened Wrappers
  import opened JsValues

  /** One location object as decoded from JSON; a missing field is `Undefined`. */
  datatype LocationRecord = LocationRecord(
    email: JsValue, latitude: JsValue, longitude: JsValue, timestamp: JsValue)

  /** An element of the snapshot array: `null`, or anything whose fields can be read. */
  datatype Row = NullRow | Record(rec: LocationRecord)

  /**
   * The outcome of the snapshot request: the request failed (network error,
   * a non-2xx status, or a body that is not an array), or an array of rows.
   */
  datatype Snapshot = FetchFailed | Rows(rows: seq<Row>)

  /** A roster entry as the views hold it. */
  datatype Member = Member(
    name: JsValue, role: string, lat: JsValue, lng: JsValue, timestamp: JsValue)

  /**
   * `rows.map(loc => ({ name: loc.email, role, lat: loc.latitude,
   * lng: loc.longitude, timestamp: stamp(loc.timestamp) }))`.  Reading a field
   * of a `null` row throws, so the whole map fails (`None`).
   */
  function DecodeRows(rows: seq<Row>, role: string, stamp: JsValue -> JsValue): (r: Option<seq<Member>>)
    ensures r.None? <==> exists i :: 0 <= i < |rows| && rows[i].NullRow?
    ensures r.Some? ==> |r.value| == |rows|
    ensures r.Some? ==> forall i :: 0 <= i < |rows| ==>
      && rows[i].Record?
      && r.value[i].name == rows[i].rec.email
      && r.value[i].role == role
      && r.value[i].lat == rows[i].rec.latitude
      && r.value[i].lng == rows[i].rec.longitude
      && r.value[i].timestamp == stamp(rows[i].rec.timestamp)
  {
    if rows == [] then Some([])
    else
      match rows[0]
      case NullRow => None
      case Record(loc) =>
        match DecodeRows(rows[1..], role, stamp)
        case None => None
        case Some(tail) =>
          Some([Member(loc.email, role, loc.latitude, loc.longitude, stamp(loc.timestamp))] + tail)
  }
}
