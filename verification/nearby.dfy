/**
 * The nearby-events endpoint: the guard on the query's cell string, the clamp
 * on the ring count, and the response it currently builds.
 */
module Nearby {
  import opened Wrappers
  import opened Scalars
  import opened Text
  import opened Errors
  import opened Events

  /** Query parameters; `rings` defaults to 0 and `upcomingOnly` to true when absent. */
  datatype NearbyQuery = NearbyQuery(cell: string, rings: u8, upcomingOnly: bool)

  datatype NearbyResponse = NearbyResponse(events: seq<EventSummary>, cellsSearched: seq<string>, totalCount: u32)

  const MAX_RINGS: u8 := 2

  /** The guard: a 15-byte string of ASCII hex digits (either letter case). */
  predicate CellAccepted(cell: string) {
    ByteLen(cell) == 15 && AllAsciiHex(cell)
  }

  /** The guard reads the same as "fifteen hex-digit characters". */
  lemma CellAcceptedIff(cell: string)
    ensures CellAccepted(cell) <==> |cell| == 15 && AllAsciiHex(cell)
  {
    if AllAsciiHex(cell) {
      HexStringByteLen(cell);
    }
  }

  /** The ring count is limited to 2: `rings.min(2)`. */
  function ClampRings(rings: u8): (r: u8)
    ensures r <= MAX_RINGS && r <= rings
    ensures r == rings || r == MAX_RINGS
  {
    if rings < MAX_RINGS then rings else MAX_RINGS
  }

  /**
   * `nearby_events`: a malformed cell yields an empty answer, a well-formed one
   * an answer that searched that cell alone.  The clamped ring count and the
   * upcoming-only flag do not yet influence the answer.
   */
  function NearbyEvents(query: NearbyQuery): (r: Result<NearbyResponse, ApiError>)
    ensures r.Ok?
    ensures r.value.events == [] && r.value.totalCount == 0
    ensures r.value.cellsSearched == if |query.cell| == 15 && AllAsciiHex(query.cell) then [query.cell] else []
  {
    CellAcceptedIff(query.cell);
    if !CellAccepted(query.cell) then
      Ok(NearbyResponse([], [], 0))
    else
      var rings := ClampRings(query.rings);
      Ok(NearbyResponse([], [query.cell], 0))
  }

  /** The answer depends on the cell string only. */
  lemma NearbyIgnoresRingsAndFilter(a: NearbyQuery, b: NearbyQuery)
    requires a.cell == b.cell
    ensures NearbyEvents(a) == NearbyEvents(b)
  {
  }

  /** Upper-case hex digits pass the guard; a 15-character non-hex string does not. */
  lemma GuardExamples(rings: u8, upcomingOnly: bool)
    ensures NearbyEvents(NearbyQuery("872830828FFFFFF", rings, upcomingOnly)).value.cellsSearched == ["872830828FFFFFF"]
    ensures NearbyEvents(NearbyQuery("zzzzzzzzzzzzzzz", rings, upcomingOnly)).value.cellsSearched == []
  {
    assert !IsAsciiHexDigit("zzzzzzzzzzzzzzz"[0]);
  }

  /**
   * A location cell `create_event` accepts may still be refused here: event
   * validation checks the length only, the nearby guard also the digits.
   */
  lemma EventCellNotAlwaysSearchable()
    ensures ValidateCreateEvent(CreateEventRequest("Meetup", "", 0, 1, "zzzzzzzzzzzzzzz", None, [])) == {}
    ensures NearbyEvents(NearbyQuery("zzzzzzzzzzzzzzz", 0, true)).value.cellsSearched == []
  {
    assert !IsAsciiHexDigit("zzzzzzzzzzzzzzz"[0]);
  }
}
