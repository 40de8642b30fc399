# CivicConnect API core, modelled in Dafny

This project models the deterministic parts of the CivicConnect Rust backend:

- the H3 cell helpers: `is_valid_cell` and `get_neighbors` in `location/mod.rs`;
- the input guard, ring clamp and response of the nearby-events endpoint in `api/location.rs`;
- the `ApiError` taxonomy in `error.rs`: its display messages, and the HTTP status and code string each variant is answered with;
- the `#[validate]` rules of the event, registration and login requests, and what the `list_events`, `get_event`, `create_event`, `register` and `login` handlers answer today.

Everything is written as immutable datatypes and pure functions. The one loop, in `get_neighbors`, is a method.

Modules, one per source file or concern:

| file | module | models |
|---|---|---|
| `wrappers.dfy` | `Wrappers` | Rust's `Option` and `Result` |
| `scalars.dfy` | `Scalars` | `u8`, `u32`, `u64`, UUIDs and timestamps |
| `text.dfy` | `Text` | UTF-8 byte length (`str::len`) and `is_ascii_hexdigit` |
| `errors.dfy` | `Errors` | `error.rs` |
| `location.dfy` | `Location` | `location/mod.rs` |
| `validation.dfy` | `Validation` | the `length` and `email` rules of the validation library |
| `events.dfy` | `Events` | `api/events.rs` |
| `auth.dfy` | `Auth` | `api/auth.rs` |
| `nearby.dfy` | `Nearby` | `api/location.rs` |

Collaborators the model cannot see are passed in as parameters:

- **The H3 library.** `Location.H3` bundles its cell-string parser, its cell renderer and `grid_disk` as function values. Any fact about them that a lemma needs is a precondition of that lemma. Examples: "the disk's renderings are distinct", "the library renders lower-case hex".
- **Email syntax.** The library's email grammar is a predicate `isEmail: string -> bool`.
- **Validation-error text.** `ValidationErrors::to_string` is a function `describe: set<FieldError> -> string`. Each `FieldError` records the field, the broken rule and the submitted value, because the library's report of a failure carries the offending value next to the rule's fixed bounds. The library stores failures keyed by field, in no fixed order, so the model passes them to `describe` as a set.

Lengths are measured two ways, as in the source:

- Rust's `str::len()` counts UTF-8 bytes. The source uses it in `is_valid_cell` and in the nearby guard, so the model uses `Text.ByteLen` there.
- The validation library's `length` rule counts characters, so the model uses `|s|` there.

`Text.ByteLenIsCharCount` proves that the two counts agree exactly on ASCII strings.

Where the intended protocol and the code differ, the model follows the code:

- `get_neighbors` does not clamp `rings`. The clamp to 2 exists only in `nearby_events`, and that handler never calls `get_neighbors`.
- A malformed cell does not produce an error. `nearby_events` answers `Ok` with an empty response.
- `create_event` never succeeds, and it performs no start-before-end check.

## Model

| member | source | states |
|---|---|---|
| Text.ByteLenIsCharCount | backend/rust-api/src/location/mod.rs:22 | the byte length that `len()` measures equals the character count exactly when every character is ASCII |
| Errors.StatusAndCode | backend/rust-api/src/error.rs:69-83 | the status/code map is total; the status is 500 exactly for `Internal` and `Database`, and every other variant maps to a 4xx status |
| Errors.CodeRoundTrip | backend/rust-api/src/error.rs:70-82 | every variant's code string reads back to that variant |
| Errors.CodesDistinct | backend/rust-api/src/error.rs:70-82 | two errors share a code string exactly when they are the same variant: one code per variant |
| Errors.RejectionStatuses | backend/rust-api/src/error.rs:71-80 | `RateLimited` maps to 429 (RFC 6585, section 4); `AlreadyVerified` maps to 409 and `Forbidden` to 403; `InvalidInput` (for any payload), `InvalidSignature`, `OutsideTimeWindow` and `OutsideLocation` map to 400; both not-found errors map to 404 |
| Errors.CredentialErrorsShareStatus | backend/rust-api/src/error.rs:70-79 | `InvalidCredentials` and `Unauthorized` both answer 401 but carry different codes |
| Errors.Message | backend/rust-api/src/error.rs:20-57 | the display texts: only `InvalidInput`'s text carries a payload after the "Invalid input: " prefix, and `Internal` and `Database` show the fixed texts "Internal server error" and "Database error" |
| Errors.InvalidInputMessageRoundTrip | backend/rust-api/src/error.rs:29-30 | the `InvalidInput` message is "Invalid input: " followed by the payload, and the payload can be recovered from it |
| Errors.IntoResponse | backend/rust-api/src/error.rs:67-91 | the response body's code identifies the variant; the status is 500 exactly for server faults; an `InvalidInput` body carries its payload after the fixed prefix |
| Errors.ServerFaultHidesCause | backend/rust-api/src/error.rs:53-57 | the whole response for `Internal` or `Database` is the same whatever error it wraps, with the fixed texts "Internal server error" and "Database error" |
| Errors.InvalidInputStatusIgnoresDetail | backend/rust-api/src/error.rs:73 | the status and code of `InvalidInput` do not depend on its payload |
| Location.IsValidCell | backend/rust-api/src/location/mod.rs:21-27 | a string whose UTF-8 length is not 15 bytes is never valid; a valid cell string parses and has 4 to 15 characters (so any string longer than 15 is invalid); for an ASCII string, valid means exactly 15 characters that the H3 parser accepts |
| Location.RenderedExcept | backend/rust-api/src/location/mod.rs:44-49 | the disk's renderings in order with the centre spelling dropped: no entry equals the centre, every entry renders a disk cell, and every rendering different from the centre is kept |
| Location.NeighborList | backend/rust-api/src/location/mod.rs:33-53 | the first entry is always the input string, and no later entry equals it; the list is exactly `[cell_str]` when parsing fails or `rings` is 0 |
| Location.GetNeighbors | backend/rust-api/src/location/mod.rs:33-53 | the loop builds `[cell_str]` when parsing fails or `rings` is 0, and otherwise `[cell_str]` followed by the disk's renderings minus those equal to `cell_str` |
| Location.CentreOccursOnce | backend/rust-api/src/location/mod.rs:36-48 | the input string occurs in the result exactly once, for every input and ring count |
| Location.RenderedExceptLength | backend/rust-api/src/location/mod.rs:44-49 | the result drops exactly the disk cells that render to the centre spelling |
| Location.RingLength | backend/rust-api/src/location/mod.rs:29-32 | if the disk's renderings are distinct and one of them is the input string, the list is as long as the disk (7 for ring 1, 19 for ring 2) |
| Location.RingOneHasSeven | backend/rust-api/src/location/mod.rs:103-106 | a seven-cell ring-1 disk with distinct renderings that includes the centre's spelling gives seven entries, the centre among them |
| Location.NeighborListDistinct | backend/rust-api/src/location/mod.rs:34-49 | the list never repeats an entry: always when the string does not parse or `rings` is 0, and otherwise when the disk's renderings are distinct |
| Location.UpperCaseCentreListedTwice | backend/rust-api/src/location/mod.rs:44-48 | the centre is matched by spelling: an upper-case centre string that the library accepts, when the library renders lower case, is listed again under its rendered spelling, and a 7-cell ring gives 8 entries |
| Location.NeighborsByCell | backend/rust-api/src/location/mod.rs:33-53 | corrected list that recognises the centre as a cell: it starts with the input string, and it is `[cell_str]` when parsing fails or `rings` is 0 |
| Location.NeighborsByCellRingLength | backend/rust-api/src/location/mod.rs:29-32 | with the corrected list, a disk that lists the centre once gives exactly as many entries as the disk, whatever the centre's spelling; the entries after the first are the renderings of the disk's other cells, in disk order, and the centre cell is not among them |
| Location.NeighborsByCellAgreesOnCanonicalSpelling | backend/rust-api/src/location/mod.rs:44-48 | for a centre spelled as the library renders it, the corrected list equals the list `get_neighbors` builds |
| Validation.LengthOk | backend/rust-api/src/api/events.rs:52-58 | the `length` rule on character counts: `equal` overrides `min` and `max`; `min` and `max` are inclusive bounds |
| Events.ValidateCreateEvent | backend/rust-api/src/api/events.rs:50-62 | a title outside 3..200 characters, a description over 5000 characters, and a location cell other than 15 characters are each reported, and nothing else is |
| Events.CreateEventValidIff | backend/rust-api/src/api/events.rs:52-59 | a create-event request is valid exactly when the title has 3 to 200 characters, the description at most 5000, and the location cell exactly 15 |
| Events.ValidationIgnoresScheduleAndExtras | backend/rust-api/src/api/events.rs:56-61 | start and end time, capacity and tags never affect validation |
| Events.EndBeforeStartAccepted | backend/rust-api/src/api/events.rs:91-92 | no start-before-end check is made: an event ending before it starts is valid |
| Events.ReportCarriesSubmittedValue | backend/rust-api/src/api/events.rs:88-89 | the validation report carries the submitted value: two different too-short titles give different reports |
| Events.NonHexCellAccepted | backend/rust-api/src/api/events.rs:58-59 | the location cell is checked for length only, so fifteen non-hex characters pass |
| Events.ListEvents | backend/rust-api/src/api/events.rs:66-72 | always succeeds with an empty list |
| Events.GetEvent | backend/rust-api/src/api/events.rs:76-82 | for every id, the answer is 404 with code `EVENT_NOT_FOUND` |
| Events.CreateEvent | backend/rust-api/src/api/events.rs:86-97 | never succeeds; answers `InvalidInput` with the rendered failures exactly when validation fails, and `Forbidden` otherwise |
| Events.CreateEventStatus | backend/rust-api/src/api/events.rs:86-97 | `create_event` answers 400 for a request breaking a length bound and 403 for every other request |
| Auth.ValidateRegister | backend/rust-api/src/api/auth.rs:19-27 | a bad email, a username outside 3..64 characters, and a password under 12 characters are each reported, and nothing else is |
| Auth.RegisterValidIff | backend/rust-api/src/api/auth.rs:21-26 | a registration is valid exactly when the email predicate holds, the username has 3 to 64 characters and the password at least 12 |
| Auth.PasswordHasNoMaximum | backend/rust-api/src/api/auth.rs:25-26 | a password that meets the minimum still does after any extension: there is no upper bound |
| Auth.ValidateLogin | backend/rust-api/src/api/auth.rs:30-35 | login validation passes exactly when the email predicate holds; the password is unconstrained |
| Auth.Register | backend/rust-api/src/api/auth.rs:48-65 | fails exactly on invalid input, with `InvalidInput`; on success it echoes the submitted username at level 0 |
| Auth.RegisterIssuesPlaceholderIdentity | backend/rust-api/src/api/auth.rs:59-64 | every successful registration gets the same token and user id |
| Auth.Login | backend/rust-api/src/api/auth.rs:69-81 | never succeeds: `InvalidInput` exactly when the email is malformed, `InvalidCredentials` otherwise |
| Auth.LoginIgnoresPassword | backend/rust-api/src/api/auth.rs:31-34 | the login outcome does not depend on the password |
| Auth.LoginStatus | backend/rust-api/src/api/auth.rs:69-80 | a well-formed login is answered 401 with `INVALID_CREDENTIALS`, and a malformed one 400 |
| Nearby.CellAcceptedIff | backend/rust-api/src/api/location.rs:54 | the byte-length-and-hex guard accepts exactly the strings of 15 ASCII hex digits of either case |
| Nearby.ClampRings | backend/rust-api/src/api/location.rs:63 | the clamped count is `min(rings, 2)`: never above 2, never above the request, and equal to the request or 2 |
| Nearby.NearbyEvents | backend/rust-api/src/api/location.rs:52-78 | never an error; events are always empty and the total is 0; `cells_searched` is `[cell]` for 15 hex digits and empty otherwise |
| Nearby.NearbyIgnoresRingsAndFilter | backend/rust-api/src/api/location.rs:52-78 | the answer is the same for any `rings` and `upcoming_only` |
| Nearby.GuardExamples | backend/rust-api/src/api/location.rs:54 | an upper-case hex cell is searched, and a 15-character non-hex string is not |
| Nearby.EventCellNotAlwaysSearchable | backend/rust-api/src/api/location.rs:54 | a location cell that `create_event` validation accepts can still be rejected by the nearby guard |

## Left out

- `approximate_distance_km` (`location/mod.rs:57-76`): floating-point haversine arithmetic.
- The H3 library's internals: parsing, `grid_disk`, canonical rendering and pentagon cells. Its operations are parameters, and what a lemma needs of them is a precondition of that lemma.
- `crypto/mod.rs`: Argon2, ed25519, SHA-256, hex encoding and the operating-system random source. These are randomness and foreign cryptography with no logic of their own.
- `api/verify.rs`: `generate_qr` and `verify_attendance` are stubs. The rate-limit, replay, time-window, geofence and XP checks exist only as TODO comments.
- `db/mod.rs`: an asynchronous connection pool and plain records, with no logic in them.
- `main.rs`, `lib.rs`, `api/mod.rs`, `api/health.rs`, `api/users.rs`: server start-up, routing, CORS and tracing setup, module declarations and constant stub responses.
- Deserialisation defaults, JSON serialisation and the web framework's response machinery. `IntoResponse` stops at the status and the body record.
- The validation library's email grammar, and the exact text of its error reports. These are the `isEmail` and `describe` parameters.
- The order in which the library prints several failures is not fixed between calls. `describe` gives one text per set of failures, so the model does not capture that variation.
- Location.RingLength: it holds only under the stated assumptions about the H3 library, because the library is not modelled.
- Location.RingOneHasSeven: it holds only under the stated assumptions about the H3 library, because the library is not modelled.

## Findings

| source | as written | input that shows it | evidently intended | confidence | as-written member | corrected member |
|---|---|---|---|---|---|---|
| backend/rust-api/src/location/mod.rs:44-48 | the centre is removed from the disk by comparing rendered strings with `cell_str` | `get_neighbors("872830828FFFFFF", 1)`: the parser accepts upper-case hex, but the library renders `872830828ffffff`, so the centre is kept and listed twice (8 entries) | ring 1 lists the cell and its 6 neighbours, 7 entries (the doc comment at lines 29-32) | medium: relies on the H3 library parsing hex case-insensitively and rendering lower case; not executed | Location.UpperCaseCentreListedTwice | Location.NeighborsByCell |
