# Daily check-in: a verified model

This project models the logic core of a small attendance application in Dafny. The
application has four parts:

- a **bearer-token middleware** that turns an `Authorization` header into `req.user`;
- a **check-in schema** with required fields and defaults;
- a **check-in controller** that lets each user create at most one check-in per local
  calendar day, and offers three read handlers scoped to the caller;
- a **client page** that asks the device for a position up to four times, keeps the best
  reading, resolves it to an address and posts the check-in.

Modules, one per source file (plus two helpers):

| file | module | models |
|---|---|---|
| `wrappers.dfy` | `Wrappers` | `Option`, `Result` |
| `js_values.dfy` | `JsValues` | JavaScript truthiness and the value-returning `\|\|` |
| `auth.dfy` | `Auth` | `middleware/auth.js` |
| `checkin_schema.dfy` | `CheckInSchema` | `models/CheckIn.js` |
| `checkin_controller.dfy` | `CheckInController` | `controllers/checkIn.js` |
| `checkin_page.dfy` | `CheckInPage` | `client/src/pages/CheckIn.jsx` |

How the model is built:

- The document collection is a `seq<CheckInRecord>` in insertion order. It is held by the
  class `Ledger`, whose `CreateCheckIn` method does the read-check-then-insert. `findOne`
  is "first match in store order" and `find` is "every match in store order".
- The read handlers are pure functions of the store.
- The server clock is the parameter `now`, in milliseconds. Local midnight uses a fixed
  UTC offset, `offset`. The day window is `[DayStart(now), DayStart(now) + 86400000)`.
- Token signature verification is the function parameter `verify`. It returns `None`
  when verification throws.
- The client loop is the method `AcquireBestFix`. It reads one outcome per attempt from
  an input sequence. It is proved equal to the specification function `AcquisitionOf`,
  and lemmas state what that function promises.
- The page's `location` record and `saving` flag are fields of the class `Page`.

Points where the code behaves differently from what one might expect, all modelled as
written:

- **Null accuracy compares as 0.** The code compares `accuracy < null`, and JavaScript
  coerces `null` to 0, so a null accuracy does not count as worse than any number. A
  first reading with null accuracy is never replaced by a later reading with positive
  accuracy, unless that later reading is within the 50 m threshold.
  `NullBestIsSticky` proves this.
- **Accuracy reset.** The acquisition handler clears `accuracy` to null before its first
  attempt. So after an aborted acquisition or a failed geocoding lookup, `accuracy` is
  null, not its earlier value. Latitude, longitude and address keep their earlier values.
- **Validation runs only on insert, after the duplicate query.** Malformed input is not
  rejected before any query. A duplicate with an incomplete body is therefore answered
  "already checked in today".
- **No uniqueness index.** The schema declares no storage-level uniqueness constraint on
  user and day. The model is sequential and proves the once-a-day rule only for one
  request at a time.
- **"No fix obtained" is dead code.** The loop always exits with a retained reading, so
  the code's "Could not obtain location" branch cannot be reached.

## Model

| member | source | states |
|---|---|---|
| `JsValues.OrChain` | middleware/auth.js:15-16 | `a \|\| b \|\| c` yields the first truthy operand, or the last operand when none is truthy; the result is truthy iff some operand is |
| `Auth.SplitOnSpace` | middleware/auth.js:10 | `split(' ')` gives at least one segment, no segment contains a space, and there are two or more segments exactly when the header contains a space |
| `Auth.SplitJoinRoundTrip` | middleware/auth.js:10 | joining the segments with single spaces gives the header back |
| `Auth.SplitAfterWord` | middleware/auth.js:10 | a space-free word, a space and a rest split into the word followed by the split of the rest |
| `Auth.SplitNoSpace` | middleware/auth.js:10 | a space-free string is a single segment |
| `Auth.TokenOf` | middleware/auth.js:10 | the token is the second segment and contains no space |
| `Auth.BearerTokenExtracted` | middleware/auth.js:6-10 | for a header `Bearer <t>` with a space-free `t`, the extracted token is exactly `t` |
| `Auth.Decoded` | middleware/auth.js:4-13 | a payload is obtained only when the header is present and starts with `Bearer `; for such a header the payload is whatever verification of its second space-separated segment yields |
| `Auth.Authenticate` | middleware/auth.js:3-27 | 401 "add valid token" iff the header is missing, lacks the prefix, or fails verification; 401 "invalid token payload" iff the payload has no truthy `id`/`userId`/`_id`; otherwise `next` with a truthy `userId` equal to the first truthy of `id`, `userId`, `_id`, and `name` equal to the first truthy of `name`, `username`, `email`, else null |
| `CheckInSchema.MissingFields` | models/CheckIn.js:4-24 | lists exactly the required paths whose check fails (a string must be non-empty, a number present, the user reference non-null) |
| `CheckInSchema.NewCheckIn` | models/CheckIn.js:3-29 | creation succeeds iff all five required paths pass, with no range check on coordinates; the document then has the given id and user, the four body fields, and `dateTime` = `createdAt` = `updatedAt` = now; on failure the error lists every failing path |
| `CheckInController.DayStart` | controllers/checkIn.js:17-18 | local midnight is at or before `t` and less than a day before it, on a whole-day boundary of local time |
| `CheckInController.WindowIsLocalDay` | controllers/checkIn.js:17-26 | an instant lies in the half-open 24-hour window of `now` iff it has the same local midnight as `now` |
| `CheckInController.FindOne` | controllers/checkIn.js:20-26 | `findOne` returns a stored document that matches, and no earlier document matches; it returns none iff no document matches |
| `CheckInController.Find` | controllers/checkIn.js:62 | `find` returns exactly the matching stored documents, each no more often than it is stored |
| `CheckInController.FindCounts` | controllers/checkIn.js:62 | `find` keeps each matching document exactly as often as it is stored and drops every non-matching one |
| `CheckInController.AtMostOneToday` | controllers/checkIn.js:17-32 | under the store invariant two records of one user in the same day window are the same record |
| `CheckInController.CreateOutcome` | controllers/checkIn.js:4-47 | 401 iff `req.user` is absent or its `userId` falsy; otherwise "already checked in today" iff the caller has a record in today's window; otherwise a validation error, listing exactly the failing paths, iff some required body field fails its check (an empty string counts as missing); otherwise a new document with the next id, the caller as user, the four body fields and `createdAt` = now |
| `CheckInController.CreateStatusCodes` | controllers/checkIn.js:10-46 | create answers 401 iff `req.user` is absent or its `userId` falsy; 201 iff the caller is accepted, has no record in today's window and sends a complete body; 400 iff the caller is accepted and has a record today or sends an incomplete body |
| `CheckInController.CreatePreservesInvariant` | controllers/checkIn.js:17-41 | a successful create keeps ids distinct and below the next id, and keeps at most one record per user per local day |
| `CheckInController.RunCreates` | controllers/checkIn.js:35-41 | serving a sequence of creates only appends to the store, at most one record per request |
| `CheckInController.RunCreatesPreservesInvariant` | controllers/checkIn.js:17-41 | any sequence of create requests, in any order and at any times, keeps at most one record per user per local day |
| `CheckInController.SecondSameDayRefused` | controllers/checkIn.js:17-32 | after a successful create, a second create by the same caller on the same local day is refused as a duplicate |
| `CheckInController.DifferentDaysBothAccepted` | controllers/checkIn.js:17-43 | for a caller with no stored check-in in either day's window, complete check-ins on two different local days are both created |
| `CheckInController.MiddlewareSatisfiesCreateGuard` | controllers/checkIn.js:10-12 | any `req.user` the middleware sets passes the controller's own 401 guard |
| `CheckInController.Ledger.CreateCheckIn` | controllers/checkIn.js:4-47 | the response is `CreateOutcome`; on success exactly the new document is appended and the next id advances; on every other response the store is unchanged; the store invariant is kept |
| `CheckInController.GetCheckIn` | controllers/checkIn.js:84-100 | 500 iff `req.user` is absent; a document is returned only if its id is `id` and its user is the caller; 404 iff no stored document has both |
| `CheckInController.OwnedBy` | controllers/checkIn.js:89 | the caller's documents are exactly the stored documents whose user is the caller |
| `CheckInController.FindOneAfterFind` | controllers/checkIn.js:87-90 | a `findOne` with a narrower filter over the result of a broader `find` returns what it returns over the whole store |
| `CheckInController.GetCheckInSeesOnlyOwnRecords` | controllers/checkIn.js:87-94 | the by-id answer is the same when every other user's documents are removed, so another user's id reads exactly like a missing id |
| `CheckInController.Project` | controllers/checkIn.js:67-73 | each listed entry carries the id, location name, address and creation time of its document, in the same order |
| `CheckInController.InsertNewestFirst` | controllers/checkIn.js:63 | inserting into a newest-first list keeps it newest-first and adds exactly the one element |
| `CheckInController.SortNewestFirst` | controllers/checkIn.js:63 | the result is ordered by `createdAt` descending and is a permutation of the input |
| `CheckInController.GetUserCheckIns` | controllers/checkIn.js:49-82 | 500 iff `req.user` is absent; otherwise the entries are newest first, `count` equals their number, and they are a permutation of the entries of the caller's documents that pass the range filter |
| `CheckInController.ListedExactly` | controllers/checkIn.js:52-63 | every stored document of the caller is listed, filtered only when both dates are given and then with both ends inclusive; every listed entry comes from such a document |
| `CheckInController.GetTodayCheckIn` | controllers/checkIn.js:102-122 | 500 iff `req.user` is absent; `hasCheckedIn` iff a document is returned, iff the caller has a record in today's window; a returned document is the caller's and in the window |
| `CheckInController.TodayAgreesWithCreate` | controllers/checkIn.js:104-118 | for an accepted caller, today's status reports a check-in exactly when create at the same time would refuse it as a duplicate |
| `CheckInController.TodayReportsCreated` | controllers/checkIn.js:102-122 | after a successful create, today's status at any time on the same local day returns exactly the new document |
| `CheckInPage.StopAt` | client/src/pages/CheckIn.jsx:48-62 | the loop stops at the first attempt that fails or is within 50 m, or after all four attempts |
| `CheckInPage.BestIndex` | client/src/pages/CheckIn.jsx:54-56 | the retained reading is one of the attempts made so far |
| `CheckInPage.AcquisitionOf` | client/src/pages/CheckIn.jsx:43-75 | between 1 and 4 attempts are made, and every attempt before the last is a reading outside the threshold; the result is an abort iff the last attempt failed, and then it carries that error; a last reading within 50 m is the result; otherwise all 4 attempts were made and the retained best is the result |
| `CheckInPage.AcquireBestFix` | client/src/pages/CheckIn.jsx:43-81 | the attempt loop computes `AcquisitionOf`; it always exits with a retained reading, so the "could not obtain location" branch is unreachable |
| `CheckInPage.BestIndexIsFirstMinimum` | client/src/pages/CheckIn.jsx:53-56 | when the first reading has an accuracy, the retained one has one too and it is the smallest among the readings that report an accuracy (null ones are skipped); every earlier reading with an accuracy is strictly worse (ties go to the earlier reading) |
| `CheckInPage.NullBestIsSticky` | client/src/pages/CheckIn.jsx:54 | a first reading with null accuracy is never replaced by later readings with non-negative accuracy, because null compares as 0 |
| `CheckInPage.FirstFailureAborts` | client/src/pages/CheckIn.jsx:69-74 | an error on the first attempt aborts at once with that error, with no retry |
| `CheckInPage.EarlyExitWins` | client/src/pages/CheckIn.jsx:59-62 | the first reading within 50 m is the result, even if a later attempt that was never made would have been better |
| `CheckInPage.FailureMessage` | client/src/pages/CheckIn.jsx:156 | the error shown is the server's non-empty `msg`, else the error's non-empty message, else the default text; it is never empty |
| `CheckInPage.SubmittedBodyIsComplete` | client/src/pages/CheckIn.jsx:111-137 | a location that passes the submit check yields a body whose coordinates and address pass the schema; only an empty location name can still fail |
| `CheckInPage.EquatorFixRefused` | client/src/pages/CheckIn.jsx:111 | a latitude of exactly 0 counts as missing on the page, even though the schema would accept it |
| `CheckInPage.Page.constructor` | client/src/pages/CheckIn.jsx:8-17 | the page starts with an empty name and address, null coordinates and accuracy, no error, and not loading or saving |
| `CheckInPage.Page.SetLocationName` | client/src/pages/CheckIn.jsx:179-182 | typing changes only the location name |
| `CheckInPage.Page.GetCurrentLocation` | client/src/pages/CheckIn.jsx:20-105 | without geolocation: the error is set and no attempt is made; on an attempt error or a geocoding failure: the error is set, accuracy is cleared, and latitude, longitude and address keep their earlier values; on success: the chosen fix's coordinates and accuracy and the resolved address are stored and the error is cleared; loading ends false and `saving` is untouched |
| `CheckInPage.Page.HandleSubmit` | client/src/pages/CheckIn.jsx:107-162 | a body is posted iff latitude, longitude (0 counts as missing) and address are truthy, the confirm prompt (shown only when accuracy is truthy and above 50) was accepted, and a token is stored; the posted body is the current location record; after a successful post only the location name is cleared; each rejection path sets the error it states, and `saving` ends false once the request was attempted |

## Left out

- Token signature checking is not modelled. `verify` is an arbitrary function from token
  to optional payload. The secret and token expiry are part of it.
- Document ids are naturals from a counter. The model does not generate ObjectIds and
  does not cast strings to ObjectIds. A malformed id, which the code answers with a 500
  cast error, is not modelled.
- The user reference is stored exactly as the token payload held it. Casting it to an
  ObjectId is not modelled. An id that is an object or array (`Composite`) is compared
  by an abstract reference; the code would fail such an id at the ObjectId cast.
- Body fields are typed as optional strings and numbers. Mongoose casting of other JSON
  types is not modelled, such as a number sent for a string path.
- The list handler's `startDate`/`endDate` arrive as already-parsed times. `None` stands
  for a missing or empty parameter. Date parsing, and its cast error on an invalid date,
  are not modelled.
- `toLocaleDateString`/`toLocaleTimeString` are not modelled. A list entry carries
  `createdAt`, from which the code formats the date and time strings.
- MongoDB leaves the order of documents with equal `createdAt` unspecified. The model
  picks one order. Its contracts promise only newest-first order and a permutation.
- Time zones are not modelled. Local time is UTC plus a fixed offset, with no daylight
  saving: a day is always 24 hours.
- The code reads the clock three times: for today's window, for the `dateTime` default
  when the document is built, and for the `createdAt`/`updatedAt` timestamps. The model
  uses one `now` for all three, so `dateTime` equals `createdAt`.
- The concurrent race between the duplicate query and the insert is not modelled. The
  ledger is sequential and claims no atomicity.
- Database failures, which the code answers with 400 or 500 from its `catch` blocks, are
  not modelled, except the 500 a read handler gives when `req.user` is absent.
- Logging to the console is not modelled.
- Browser I/O is not modelled: toasts, the timed positioning options, the one-second
  delay between attempts, React rendering and `setState` batching, and stale closures.
  The intermediate `loading: true` state is set, but only the final state is specified.
  The disabled state of the buttons is not modelled. Because of it and the `required`
  attribute on the name input (`client/src/pages/CheckIn.jsx:184`, `:214`), the form does
  not submit with an empty name or address; `HandleSubmit` is modelled for every state
  anyway, so the empty-name case of `SubmittedBodyIsComplete` is not reachable from the form.
- `window.confirm`, the stored token and the server response are parameters, not
  modelled behaviour.
- The geocoding service is a function of the coordinates. A reply without
  `display_name` is a reply with an empty address: both are falsy, and both fail the
  schema check.
- An `undefined` accuracy (which compares as NaN) and NaN coordinates are not modelled.
  Only `null` accuracy is. `Math.round` of the accuracy for display is not modelled.
- Express wiring, routing, the database connection, static serving and the client's
  URL/header helper are bootstrap and browser glue. They are not part of this model.
