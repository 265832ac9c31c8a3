/**
 * The client check-in page: best-fix acquisition over a bounded number of positioning
 * attempts, reverse geocoding of the chosen fix, and the submit gate that posts a check-in.
 *
 * The device is modelled by the outcome of each attempt, in order; the geocoding service
 * by a function from coordinates to an optional place name; the server, the stored token
 * and the confirm dialog by the answers they give.
 */
module CheckInPage {
  import opened Wrappers
  import opened CheckInSchema

  const MaxAttempts: nat := 4
  const AccuracyThresholdMeters: real := 50.0

  /** One positioning reading; `accuracy` is the error radius in metres and may be null. */
  datatype Position = Position(latitude: real, longitude: real, accuracy: Option<real>)

  /** The outcome of one positioning request: a reading, or an error carrying its message. */
  datatype Attempt = Fix(position: Position) | Failure(message: string)

  /** How acquisition ends, with the number of attempts made. */
  datatype Acquisition = Aborted(message: string, attempts: nat) | Acquired(position: Position, attempts: nat)

  // ---------------------------------------------------------------- best-fix selection

  /** The number JavaScript uses for an accuracy on the right of `<`: null converts to 0. */
  function AccuracyAsNumber(a: Option<real>): real {
    if a.Some? then a.value else 0.0
  }

  /** `accuracy != null && accuracy < bestPosition.coords.accuracy`. */
  predicate Improves(p: Position, best: Position) {
    p.accuracy.Some? && p.accuracy.value < AccuracyAsNumber(best.accuracy)
  }

  /** `accuracy != null && accuracy <= ACCURACY_THRESHOLD_METERS`. */
  predicate AccurateEnough(p: Position) {
    p.accuracy.Some? && p.accuracy.value <= AccuracyThresholdMeters
  }

  /** An attempt that ends the loop: a hard error, or a reading accurate enough. */
  predicate Stops(a: Attempt) {
    a.Failure? || AccurateEnough(a.position)
  }

  /** The first attempt from `from` on (below MaxAttempts) that ends the loop, or MaxAttempts. */
  function StopAt(attempts: seq<Attempt>, from: nat): (k: nat)
    requires from <= MaxAttempts <= |attempts|
    ensures from <= k <= MaxAttempts
    ensures k < MaxAttempts ==> Stops(attempts[k])
    ensures forall i :: from <= i < k ==> !Stops(attempts[i])
    decreases MaxAttempts - from
  {
    if from == MaxAttempts then MaxAttempts
    else if Stops(attempts[from]) then from
    else StopAt(attempts, from + 1)
  }

  /**
   * The reading retained after the first `n` attempts, all readings: the first is always
   * taken, and a later one replaces the retained one only when it `Improves` on it.
   */
  function BestIndex(attempts: seq<Attempt>, n: nat): (b: nat)
    requires 1 <= n <= |attempts|
    requires forall i :: 0 <= i < n ==> attempts[i].Fix?
    ensures b < n
  {
    if n == 1 then 0
    else
      var b := BestIndex(attempts, n - 1);
      if Improves(attempts[n - 1].position, attempts[b].position) then n - 1 else b
  }

  /** The acquisition the page performs for these attempt outcomes. */
  function AcquisitionOf(attempts: seq<Attempt>): (r: Acquisition)
    requires MaxAttempts <= |attempts|
    ensures 1 <= r.attempts <= MaxAttempts
    ensures forall i :: 0 <= i < r.attempts - 1 ==> attempts[i].Fix? && !AccurateEnough(attempts[i].position)
    ensures r.Aborted? <==> attempts[r.attempts - 1].Failure?
    ensures r.Aborted? ==> attempts[r.attempts - 1] == Failure(r.message)
    ensures r.Acquired? ==> exists i :: 0 <= i < r.attempts && attempts[i] == Fix(r.position)
    ensures r.Acquired? && AccurateEnough(attempts[r.attempts - 1].position) ==> attempts[r.attempts - 1] == Fix(r.position)
    ensures r.Acquired? && !AccurateEnough(attempts[r.attempts - 1].position) ==>
      r.attempts == MaxAttempts && r.position == attempts[BestIndex(attempts, MaxAttempts)].position
  {
    var k := StopAt(attempts, 0);
    if k < MaxAttempts then
      match attempts[k]
      case Failure(message) => Aborted(message, k + 1)
      case Fix(p) => Acquired(p, k + 1)
    else
      Acquired(attempts[BestIndex(attempts, MaxAttempts)].position, MaxAttempts)
  }

  /**
   * The attempt loop: at most MaxAttempts requests, abort on the first error, stop at the
   * first reading within the threshold, otherwise keep the best reading. The loop never
   * exits without a retained reading, so the "could not obtain location" branch after it
   * cannot be taken (the `best.value` below is checked).
   */
  method AcquireBestFix(attempts: seq<Attempt>) returns (r: Acquisition)
    requires MaxAttempts <= |attempts|
    ensures r == AcquisitionOf(attempts)
  {
    var best: Option<Position> := None;
    var attempt := 1;
    while attempt <= MaxAttempts
      invariant 1 <= attempt <= MaxAttempts + 1
      invariant forall i :: 0 <= i < attempt - 1 ==> !Stops(attempts[i])
      invariant attempt == 1 ==> best.None?
      invariant attempt > 1 ==> best == Some(attempts[BestIndex(attempts, attempt - 1)].position)
    {
      match attempts[attempt - 1] {
        case Failure(message) =>
          return Aborted(message, attempt);
        case Fix(pos) =>
          if best.None? || Improves(pos, best.value) {
            best := Some(pos);
          }
          if AccurateEnough(pos) {
            best := Some(pos);
            break;
          }
      }
      attempt := attempt + 1;
    }
    r := Acquired(best.value, if attempt <= MaxAttempts then attempt else MaxAttempts);
  }

  /**
   * When the first reading reports an accuracy, the retained one reports one too, and it
   * is the smallest accuracy among the readings that report one (readings with null
   * accuracy are skipped); every earlier reading with an accuracy was strictly worse, so
   * on ties the earliest wins.
   */
  lemma {:induction false} BestIndexIsFirstMinimum(attempts: seq<Attempt>, n: nat)
    requires 1 <= n <= |attempts|
    requires forall i :: 0 <= i < n ==> attempts[i].Fix?
    requires attempts[0].position.accuracy.Some?
    ensures attempts[BestIndex(attempts, n)].position.accuracy.Some?
    ensures forall j :: 0 <= j < n && attempts[j].position.accuracy.Some? ==>
      attempts[BestIndex(attempts, n)].position.accuracy.value <= attempts[j].position.accuracy.value
    ensures forall j :: 0 <= j < BestIndex(attempts, n) && attempts[j].position.accuracy.Some? ==>
      attempts[BestIndex(attempts, n)].position.accuracy.value < attempts[j].position.accuracy.value
  {
    if n > 1 {
      BestIndexIsFirstMinimum(attempts, n - 1);
    }
  }

  /**
   * A first reading with null accuracy is never replaced by a later reading with a
   * non-negative accuracy, because null compares as 0.
   */
  lemma {:induction false} NullBestIsSticky(attempts: seq<Attempt>, n: nat)
    requires 1 <= n <= |attempts|
    requires forall i :: 0 <= i < n ==> attempts[i].Fix?
    requires attempts[0].position.accuracy.None?
    requires forall i :: 0 < i < n ==> AccuracyAsNumber(attempts[i].position.accuracy) >= 0.0
    ensures BestIndex(attempts, n) == 0
  {
    if n > 1 {
      NullBestIsSticky(attempts, n - 1);
    }
  }

  /** An error on the first request ends acquisition at once, with that error. */
  lemma FirstFailureAborts(attempts: seq<Attempt>)
    requires MaxAttempts <= |attempts|
    requires attempts[0].Failure?
    ensures AcquisitionOf(attempts) == Aborted(attempts[0].message, 1)
  {
  }

  /**
   * A reading within the threshold ends acquisition and is the result, even when a later,
   * never requested attempt would have been better.
   */
  lemma EarlyExitWins(attempts: seq<Attempt>, k: nat)
    requires MaxAttempts <= |attempts| && k < MaxAttempts
    requires forall i :: 0 <= i < k ==> !Stops(attempts[i])
    requires attempts[k].Fix? && AccurateEnough(attempts[k].position)
    ensures AcquisitionOf(attempts) == Acquired(attempts[k].position, k + 1)
  {
    assert StopAt(attempts, 0) == k;
  }

  // ---------------------------------------------------------------- page state

  /** The page's `location` state record. */
  datatype LocationState = LocationState(
    checkInLocation: string,
    latitude: Option<real>,
    longitude: Option<real>,
    currentAddress: string,
    accuracy: Option<real>,
    loading: bool,
    error: Option<string>)

  const InitialLocation: LocationState := LocationState("", None, None, "", None, false, None)

  const GeolocationUnsupportedMsg: string := "Geolocation is not supported by your browser"
  const LocationFailedPrefix: string := "Failed to get location: "
  const AddressFailedMsg: string := "Failed to get address from coordinates"
  const CaptureFirstMsg: string := "Please capture your current location first."
  const AuthRequiredMsg: string := "Authentication required"
  const RecordFailedMsg: string := "Failed to record attendance"

  /** JavaScript truthiness of a number that may be null (0 is falsy). */
  predicate TruthyNumber(x: Option<real>) {
    x.Some? && x.value != 0.0
  }

  /** The submit validation: latitude, longitude and address all truthy. */
  predicate ReadyToSubmit(loc: LocationState) {
    TruthyNumber(loc.latitude) && TruthyNumber(loc.longitude) && loc.currentAddress != ""
  }

  /** The confirm prompt appears when the accuracy is truthy and above the threshold. */
  predicate NeedsConfirmation(loc: LocationState) {
    TruthyNumber(loc.accuracy) && loc.accuracy.value > AccuracyThresholdMeters
  }

  /** The request body posted for a location record. */
  function BodyOf(loc: LocationState): CheckInBody {
    CheckInBody(Some(loc.checkInLocation), loc.latitude, loc.longitude, Some(loc.currentAddress))
  }

  /** The server's answer to the post: success, or an error with the response's `msg` (if any) and its own message. */
  datatype PostReply = Accepted | Rejected(responseMsg: Option<string>, message: string)

  /** `error.response?.data?.msg || error.message || 'Failed to record attendance'`. */
  function FailureMessage(responseMsg: Option<string>, message: string): (m: string)
    ensures m != ""
    ensures responseMsg.Some? && responseMsg.value != "" ==> m == responseMsg.value
    ensures (responseMsg.None? || responseMsg.value == "") && message != "" ==> m == message
    ensures (responseMsg.None? || responseMsg.value == "") && message == "" ==> m == RecordFailedMsg
  {
    if responseMsg.Some? && responseMsg.value != "" then responseMsg.value
    else if message != "" then message
    else RecordFailedMsg
  }

  /** What the page would post passes the schema's coordinate and address checks; only an empty name can still fail. */
  lemma SubmittedBodyIsComplete(loc: LocationState, id: RecordId, user: JsValues.JsValue, now: int)
    requires ReadyToSubmit(loc) && RefPresent(user)
    ensures NewCheckIn(id, user, BodyOf(loc), now).Ok? <==> loc.checkInLocation != ""
  {
  }

  /** A fix exactly on the equator passes the schema but is refused by the page as "not captured". */
  lemma EquatorFixRefused(loc: LocationState, id: RecordId, user: JsValues.JsValue, now: int)
    requires loc.latitude == Some(0.0) && loc.longitude.Some? && loc.currentAddress != "" && loc.checkInLocation != ""
    requires RefPresent(user)
    ensures !ReadyToSubmit(loc)
    ensures NewCheckIn(id, user, BodyOf(loc), now).Ok?
  {
  }

  /** The page: its `location` record and the `saving` flag. */
  class Page {
    var location: LocationState
    var saving: bool

    constructor ()
      ensures location == InitialLocation && !saving
    {
      location := InitialLocation;
      saving := false;
    }

    /** Typing in the location-name field. */
    method SetLocationName(name: string)
      modifies this
      ensures location == old(location).(checkInLocation := name) && saving == old(saving)
    {
      location := location.(checkInLocation := name);
    }

    /** The "Get Current Location" handler. */
    method GetCurrentLocation(geolocationAvailable: bool, attempts: seq<Attempt>, reverseGeocode: (real, real) -> Option<string>)
      requires MaxAttempts <= |attempts|
      modifies this
      ensures saving == old(saving)
      ensures !geolocationAvailable ==>
        location == old(location).(accuracy := None, loading := false, error := Some(GeolocationUnsupportedMsg))
      ensures geolocationAvailable && AcquisitionOf(attempts).Aborted? ==>
        location == old(location).(accuracy := None, loading := false,
                                   error := Some(LocationFailedPrefix + AcquisitionOf(attempts).message))
      ensures geolocationAvailable && AcquisitionOf(attempts).Acquired? ==>
        var p := AcquisitionOf(attempts).position;
        match reverseGeocode(p.latitude, p.longitude)
        case None =>
          location == old(location).(accuracy := None, loading := false, error := Some(AddressFailedMsg))
        case Some(address) =>
          location == old(location).(latitude := Some(p.latitude), longitude := Some(p.longitude),
                                     currentAddress := address, accuracy := p.accuracy, loading := false, error := None)
    {
      location := location.(loading := true, error := None, accuracy := None);
      if !geolocationAvailable {
        location := location.(loading := false, error := Some(GeolocationUnsupportedMsg));
        return;
      }
      var acquisition := AcquireBestFix(attempts);
      match acquisition {
        case Aborted(message, _) =>
          location := location.(loading := false, error := Some(LocationFailedPrefix + message));
        case Acquired(p, _) =>
          var address := reverseGeocode(p.latitude, p.longitude);
          match address {
            case None =>
              location := location.(loading := false, error := Some(AddressFailedMsg));
            case Some(a) =>
              location := location.(latitude := Some(p.latitude), longitude := Some(p.longitude),
                                    currentAddress := a, accuracy := p.accuracy, loading := false, error := None);
          }
      }
    }

    /**
     * The submit handler. `hasToken` is whether a token is stored, `proceed` the answer
     * to the confirm prompt, `reply` the server's answer; `sent` is the body posted, if any.
     */
    method HandleSubmit(hasToken: bool, proceed: bool, reply: PostReply) returns (sent: Option<CheckInBody>)
      modifies this
      ensures sent.Some? <==> ReadyToSubmit(old(location)) && (NeedsConfirmation(old(location)) ==> proceed) && hasToken
      ensures sent.Some? ==> sent.value == BodyOf(old(location))
      ensures !ReadyToSubmit(old(location)) ==>
        location == old(location).(error := Some(CaptureFirstMsg)) && saving == old(saving)
      ensures ReadyToSubmit(old(location)) && NeedsConfirmation(old(location)) && !proceed ==>
        location == old(location) && saving == old(saving)
      ensures ReadyToSubmit(old(location)) && (NeedsConfirmation(old(location)) ==> proceed) && !hasToken ==>
        location == old(location).(error := Some(AuthRequiredMsg)) && !saving
      ensures sent.Some? && reply.Accepted? ==> location == old(location).(checkInLocation := "") && !saving
      ensures sent.Some? && reply.Rejected? ==>
        location == old(location).(error := Some(FailureMessage(reply.responseMsg, reply.message))) && !saving
    {
      if !(TruthyNumber(location.latitude) && TruthyNumber(location.longitude) && location.currentAddress != "") {
        location := location.(error := Some(CaptureFirstMsg));
        return None;
      }
      if TruthyNumber(location.accuracy) && location.accuracy.value > AccuracyThresholdMeters {
        if !proceed {
          return None;
        }
      }
      if !hasToken {
        location := location.(error := Some(AuthRequiredMsg));
        saving := false;
        return None;
      }
      saving := true;
      var body := BodyOf(location);
      sent := Some(body);
      match reply {
        case Accepted =>
          location := location.(checkInLocation := "");
        case Rejected(responseMsg, message) =>
          location := location.(error := Some(FailureMessage(responseMsg, message)));
      }
      saving := false;
    }
  }
}
