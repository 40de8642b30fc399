/**
 * The event endpoints: the records they exchange, the validation of a
 * create-event request, and what each handler currently answers.
 */
module Events {
  import opened Wrappers
  import opened Scalars
  import opened Errors
  import opened Validation

  /** An entry of an event listing. */
  datatype EventSummary = EventSummary(
    id: Uuid,
    title: string,
    organizerUsername: string,
    organizerLevel: u8,
    startTime: Timestamp,
    locationCell: string,
    attendeeCount: u32,
    capacity: Option<u32>,
    tags: seq<string>)

  /** The full description of one event. */
  datatype EventDetails = EventDetails(
    id: Uuid,
    title: string,
    description: string,
    organizerId: Uuid,
    organizerUsername: string,
    organizerLevel: u8,
    startTime: Timestamp,
    endTime: Timestamp,
    locationCell: string,
    attendeeCount: u32,
    capacity: Option<u32>,
    tags: seq<string>,
    createdAt: Timestamp)

  datatype CreateEventRequest = CreateEventRequest(
    title: string,
    description: string,
    startTime: Timestamp,
    endTime: Timestamp,
    locationCell: string,
    capacity: Option<u32>,
    tags: seq<string>)

  const TITLE_LENGTH := Between(3, 200)
  const DESCRIPTION_LENGTH := AtMost(5000)
  const LOCATION_CELL_LENGTH := Exactly(15)

  /** `CreateEventRequest::validate`: the length rules on title, description and cell. */
  function ValidateCreateEvent(req: CreateEventRequest): (errs: ValidationErrors)
    ensures FieldError(Title, Length, req.title) in errs <==> !(3 <= |req.title| <= 200)
    ensures FieldError(Description, Length, req.description) in errs <==> |req.description| > 5000
    ensures FieldError(LocationCell, Length, req.locationCell) in errs <==> |req.locationCell| != 15
    ensures errs <= {FieldError(Title, Length, req.title), FieldError(Description, Length, req.description), FieldError(LocationCell, Length, req.locationCell)}
  {
    Check(LengthOk(req.title, TITLE_LENGTH), Title, Length, req.title)
    + Check(LengthOk(req.description, DESCRIPTION_LENGTH), Description, Length, req.description)
    + Check(LengthOk(req.locationCell, LOCATION_CELL_LENGTH), LocationCell, Length, req.locationCell)
  }

  /** A create-event request passes exactly when its three length bounds hold. */
  lemma CreateEventValidIff(req: CreateEventRequest)
    ensures ValidateCreateEvent(req) == {} <==>
      3 <= |req.title| <= 200 && |req.description| <= 5000 && |req.locationCell| == 15
  {
    var errs := ValidateCreateEvent(req);
    if errs != {} {
      var e :| e in errs;
    }
  }

  /** The times, capacity and tags play no part in validation. */
  lemma ValidationIgnoresScheduleAndExtras(a: CreateEventRequest, b: CreateEventRequest)
    requires a.title == b.title && a.description == b.description && a.locationCell == b.locationCell
    ensures ValidateCreateEvent(a) == ValidateCreateEvent(b)
  {
  }

  /** No start-before-end check: an event ending before it starts is accepted. */
  lemma EndBeforeStartAccepted()
    ensures ValidateCreateEvent(CreateEventRequest("Meetup", "", 100, 50, "872830828ffffff", None, [])) == {}
  {
  }

  /** The cell is checked for length only: fifteen non-hex characters pass. */
  lemma NonHexCellAccepted()
    ensures ValidateCreateEvent(CreateEventRequest("Meetup", "", 0, 1, "zzzzzzzzzzzzzzz", None, [])) == {}
  {
  }

  /**
   * A failed validation reports the submitted value, so two requests breaking
   * the same rule with different values get different reports.
   */
  lemma ReportCarriesSubmittedValue(a: CreateEventRequest, b: CreateEventRequest)
    requires |a.title| < 3 && |b.title| < 3 && a.title != b.title
    ensures ValidateCreateEvent(a) != ValidateCreateEvent(b)
  {
    assert FieldError(Title, Length, a.title) in ValidateCreateEvent(a);
    assert FieldError(Title, Length, a.title) !in ValidateCreateEvent(b);
  }

  /** `list_events`: always an empty listing. */
  function ListEvents(): (r: Result<seq<EventSummary>, ApiError>)
    ensures r.Ok? && |r.value| == 0
  {
    Ok([])
  }

  /** `get_event`: no event is ever found, whatever the id. */
  function GetEvent(id: Uuid): (r: Result<EventDetails, ApiError>)
    ensures r.Err? && IntoResponse(r.error).status == NOT_FOUND
    ensures r.Err? && IntoResponse(r.error).body.code == "EVENT_NOT_FOUND"
  {
    Err(EventNotFound)
  }

  /**
   * `create_event`: a request failing validation is rejected as invalid input
   * carrying the rendered failures; every other request is refused.
   */
  function CreateEvent(req: CreateEventRequest, describe: Describe): (r: Result<EventDetails, ApiError>)
    ensures r.Err?
    ensures r.error.InvalidInput? <==> ValidateCreateEvent(req) != {}
    ensures r.error.InvalidInput? ==> r.error.detail == describe(ValidateCreateEvent(req))
    ensures !r.error.InvalidInput? ==> r.error == Forbidden
  {
    var errs := ValidateCreateEvent(req);
    if errs != {} then Err(InvalidInput(describe(errs))) else Err(Forbidden)
  }

  /** The answer to `create_event` is 400 for a malformed request and 403 otherwise. */
  lemma CreateEventStatus(req: CreateEventRequest, describe: Describe)
    ensures CreateEvent(req, describe).Err?
    ensures IntoResponse(CreateEvent(req, describe).error).status ==
      if 3 <= |req.title| <= 200 && |req.description| <= 5000 && |req.locationCell| == 15
      then FORBIDDEN else BAD_REQUEST
  {
    CreateEventValidIff(req);
  }
}
