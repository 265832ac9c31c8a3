/**
 * The check-in controller: a ledger of check-in documents with a once-per-local-day rule
 * on create, and three read handlers scoped to the authenticated caller.
 *
 * The document collection is an in-memory sequence in insertion order. The server
 * clock is the parameter `now` (milliseconds), and local midnight is computed with a
 * fixed offset from UTC, `offset` (milliseconds).
 */
module CheckInController {
  import opened Wrappers
  import opened JsValues
  import opened CheckInSchema
  import Auth

  /** Length of the day window the controller queries: 24 h in milliseconds. */
  const DayMs: int := 24 * 60 * 60 * 1000

  // ---------------------------------------------------------------- the day window

  /** Local midnight at or before `t` (`setHours(0, 0, 0, 0)` at a fixed UTC offset). */
  function DayStart(t: int, offset: int): (d: int)
    ensures d <= t < d + DayMs
    ensures (d + offset) % DayMs == 0
  {
    (t + offset) / DayMs * DayMs - offset
  }

  /** `createdAt` lies in the half-open window `[DayStart(now), DayStart(now) + 24 h)`. */
  predicate InDayOf(createdAt: int, now: int, offset: int) {
    DayStart(now, offset) <= createdAt < DayStart(now, offset) + DayMs
  }

  /** Euclidean division by the day length has exactly one candidate quotient. */
  lemma FloorUnique(x: int, q: int)
    requires q * DayMs <= x < q * DayMs + DayMs
    ensures x / DayMs == q
  {
    assert x == x / DayMs * DayMs + x % DayMs;
  }

  /** The window of `now` is exactly the set of instants on the same local day as `now`. */
  lemma WindowIsLocalDay(s: int, t: int, offset: int)
    ensures InDayOf(s, t, offset) <==> DayStart(s, offset) == DayStart(t, offset)
  {
    var q := (t + offset) / DayMs;
    if InDayOf(s, t, offset) {
      FloorUnique(s + offset, q);
    }
  }

  // ---------------------------------------------------------------- the query engine

  /** `findOne(filter)`: the first stored document that the filter matches. */
  function FindOne(store: seq<CheckInRecord>, matches: CheckInRecord -> bool): (r: Option<CheckInRecord>)
    ensures r.Some? ==> r.value in store && matches(r.value)
    ensures r.Some? ==> exists i :: 0 <= i < |store| && store[i] == r.value && forall j :: 0 <= j < i ==> !matches(store[j])
    ensures r.None? <==> forall i :: 0 <= i < |store| ==> !matches(store[i])
  {
    if store == [] then None
    else if matches(store[0]) then Some(store[0])
    else
      var r := FindOne(store[1..], matches);
      assert forall i :: 1 <= i < |store| ==> store[i] == store[1..][i - 1];
      r
  }

  /** `find(filter)`: every matching document, in store order. */
  function Find(store: seq<CheckInRecord>, matches: CheckInRecord -> bool): (rs: seq<CheckInRecord>)
    ensures forall r :: r in rs <==> r in store && matches(r)
    ensures multiset(rs) <= multiset(store)
  {
    if store == [] then []
    else
      var rest := Find(store[1..], matches);
      assert store == [store[0]] + store[1..];
      if matches(store[0]) then [store[0]] + rest else rest
  }

  /** `find` keeps every matching document as often as it is stored, and drops the rest. */
  lemma {:induction false} FindCounts(store: seq<CheckInRecord>, matches: CheckInRecord -> bool)
    ensures forall r :: multiset(Find(store, matches))[r] == if matches(r) then multiset(store)[r] else 0
  {
    if store != [] {
      FindCounts(store[1..], matches);
      assert store == [store[0]] + store[1..];
    }
  }

  /** A `findOne` over the result of a broader `find` sees the same first match. */
  lemma {:induction false} FindOneAfterFind(store: seq<CheckInRecord>, broad: CheckInRecord -> bool, narrow: CheckInRecord -> bool)
    requires forall r :: narrow(r) ==> broad(r)
    ensures FindOne(Find(store, broad), narrow) == FindOne(store, narrow)
  {
    if store != [] {
      FindOneAfterFind(store[1..], broad, narrow);
    }
  }

  // ---------------------------------------------------------------- the store invariant

  /** A caller the create handler accepts: `req.user` set with a truthy `userId`. */
  predicate Authorized(caller: Option<Auth.AuthUser>) {
    caller.Some? && Truthy(caller.value.userId)
  }

  /** The filter of the duplicate check and of today's status. */
  predicate TodaysFor(userId: JsValue, now: int, offset: int, r: CheckInRecord) {
    r.user == userId && InDayOf(r.createdAt, now, offset)
  }

  /** At most one check-in per user per local day. */
  predicate OnePerUserPerDay(store: seq<CheckInRecord>, offset: int) {
    forall i, j :: 0 <= i < j < |store| && store[i].user == store[j].user ==>
      DayStart(store[i].createdAt, offset) != DayStart(store[j].createdAt, offset)
  }

  /** Ids are distinct and below the next id to hand out; the daily rule holds. */
  predicate StoreInvariant(store: seq<CheckInRecord>, nextId: RecordId, offset: int) {
    && (forall i :: 0 <= i < |store| ==> store[i].id < nextId)
    && (forall i, j :: 0 <= i < j < |store| ==> store[i].id != store[j].id)
    && OnePerUserPerDay(store, offset)
  }

  /** Under the invariant a user has at most one record in any day window. */
  lemma AtMostOneToday(store: seq<CheckInRecord>, nextId: RecordId, offset: int, userId: JsValue, now: int, i: int, j: int)
    requires StoreInvariant(store, nextId, offset)
    requires 0 <= i < |store| && 0 <= j < |store|
    requires TodaysFor(userId, now, offset, store[i]) && TodaysFor(userId, now, offset, store[j])
    ensures i == j
  {
    WindowIsLocalDay(store[i].createdAt, now, offset);
    WindowIsLocalDay(store[j].createdAt, now, offset);
  }

  // ---------------------------------------------------------------- create

  /** The create handler's responses: 401, 400 (duplicate), 400 (validation) and 201. */
  datatype CreateResponse = CreateUnauthorized | AlreadyCheckedIn | ValidationFailed(missing: seq<Field>) | Created(checkIn: CheckInRecord)

  /** The HTTP status of each create response. */
  function CreateStatus(r: CreateResponse): int {
    match r
    case CreateUnauthorized => 401
    case AlreadyCheckedIn => 400
    case ValidationFailed(_) => 400
    case Created(_) => 201
  }

  /** What create answers for this store, caller, body and time; `nextId` is the id a new document gets. */
  function CreateOutcome(store: seq<CheckInRecord>, nextId: RecordId, caller: Option<Auth.AuthUser>, body: CheckInBody, now: int, offset: int): (r: CreateResponse)
    ensures r.CreateUnauthorized? <==> !Authorized(caller)
    ensures r.AlreadyCheckedIn? <==>
      Authorized(caller) && exists i :: 0 <= i < |store| && TodaysFor(caller.value.userId, now, offset, store[i])
    ensures r.ValidationFailed? <==>
      Authorized(caller) && (forall i :: 0 <= i < |store| ==> !TodaysFor(caller.value.userId, now, offset, store[i]))
      && !CompleteBody(body)
    ensures r.ValidationFailed? ==> r.missing != [] && forall f :: f in r.missing <==> !Satisfied(f, caller.value.userId, body)
    ensures r.Created? ==>
      && Authorized(caller)
      && (forall i :: 0 <= i < |store| ==> !TodaysFor(caller.value.userId, now, offset, store[i]))
      && CompleteBody(body)
      && r.checkIn.id == nextId && r.checkIn.user == caller.value.userId
      && Some(r.checkIn.checkInLocation) == body.checkInLocation
      && Some(r.checkIn.latitude) == body.latitude && Some(r.checkIn.longitude) == body.longitude
      && Some(r.checkIn.currentAddress) == body.currentAddress
      && r.checkIn.createdAt == now && r.checkIn.dateTime == now
  {
    if !Authorized(caller) then CreateUnauthorized
    else if FindOne(store, r => TodaysFor(caller.value.userId, now, offset, r)).Some? then AlreadyCheckedIn
    else
      match NewCheckIn(nextId, caller.value.userId, body, now)
      case Err(missing) => ValidationFailed(missing)
      case Ok(rec) => Created(rec)
  }

  /** The status codes of create: 401 without a caller, 201 for a new document, 400 for a duplicate or an incomplete body. */
  lemma CreateStatusCodes(store: seq<CheckInRecord>, nextId: RecordId, caller: Option<Auth.AuthUser>, body: CheckInBody, now: int, offset: int)
    ensures CreateStatus(CreateOutcome(store, nextId, caller, body, now, offset)) == 401 <==> !Authorized(caller)
    ensures CreateStatus(CreateOutcome(store, nextId, caller, body, now, offset)) == 201 <==>
      Authorized(caller) && (forall i :: 0 <= i < |store| ==> !TodaysFor(caller.value.userId, now, offset, store[i]))
      && CompleteBody(body)
    ensures CreateStatus(CreateOutcome(store, nextId, caller, body, now, offset)) == 400 <==>
      Authorized(caller) && ((exists i :: 0 <= i < |store| && TodaysFor(caller.value.userId, now, offset, store[i]))
                             || !CompleteBody(body))
  {
  }

  /** A successful create keeps the invariant: its document is its user's only one that day. */
  lemma CreatePreservesInvariant(store: seq<CheckInRecord>, nextId: RecordId, caller: Option<Auth.AuthUser>, body: CheckInBody, now: int, offset: int)
    requires StoreInvariant(store, nextId, offset)
    requires CreateOutcome(store, nextId, caller, body, now, offset).Created?
    ensures StoreInvariant(store + [CreateOutcome(store, nextId, caller, body, now, offset).checkIn], nextId + 1, offset)
  {
    var rec := CreateOutcome(store, nextId, caller, body, now, offset).checkIn;
    var s' := store + [rec];
    forall i, j | 0 <= i < j < |s'| && s'[i].user == s'[j].user
      ensures DayStart(s'[i].createdAt, offset) != DayStart(s'[j].createdAt, offset)
    {
      if j == |store| {
        assert !TodaysFor(caller.value.userId, now, offset, store[i]);
        WindowIsLocalDay(store[i].createdAt, now, offset);
      }
    }
  }

  /** One create request: the caller `req.user`, the body and the server time. */
  datatype CreateRequest = CreateRequest(caller: Option<Auth.AuthUser>, body: CheckInBody, now: int)

  /** The store and next id after serving `reqs` one after another. */
  function RunCreates(store: seq<CheckInRecord>, nextId: RecordId, reqs: seq<CreateRequest>, offset: int): (after: (seq<CheckInRecord>, RecordId))
    ensures |store| <= |after.0| <= |store| + |reqs|
    ensures after.0[..|store|] == store
    decreases |reqs|
  {
    if reqs == [] then (store, nextId)
    else
      match CreateOutcome(store, nextId, reqs[0].caller, reqs[0].body, reqs[0].now, offset)
      case Created(rec) =>
        var after := RunCreates(store + [rec], nextId + 1, reqs[1..], offset);
        assert after.0[..|store|] == after.0[..|store| + 1][..|store|];
        after
      case _ => RunCreates(store, nextId, reqs[1..], offset)
  }

  /** Any sequence of creates, in any order, keeps at most one check-in per user per day. */
  lemma {:induction false} RunCreatesPreservesInvariant(store: seq<CheckInRecord>, nextId: RecordId, reqs: seq<CreateRequest>, offset: int)
    requires StoreInvariant(store, nextId, offset)
    ensures StoreInvariant(RunCreates(store, nextId, reqs, offset).0, RunCreates(store, nextId, reqs, offset).1, offset)
    decreases |reqs|
  {
    if reqs != [] {
      var r := CreateOutcome(store, nextId, reqs[0].caller, reqs[0].body, reqs[0].now, offset);
      if r.Created? {
        CreatePreservesInvariant(store, nextId, reqs[0].caller, reqs[0].body, reqs[0].now, offset);
        RunCreatesPreservesInvariant(store + [r.checkIn], nextId + 1, reqs[1..], offset);
      } else {
        RunCreatesPreservesInvariant(store, nextId, reqs[1..], offset);
      }
    }
  }

  /** After a check-in, a second one by the same caller on the same local day is refused. */
  lemma SecondSameDayRefused(store: seq<CheckInRecord>, nextId: RecordId, caller: Option<Auth.AuthUser>,
                             body1: CheckInBody, now1: int, body2: CheckInBody, now2: int, offset: int)
    requires CreateOutcome(store, nextId, caller, body1, now1, offset).Created?
    requires DayStart(now1, offset) == DayStart(now2, offset)
    ensures CreateOutcome(store + [CreateOutcome(store, nextId, caller, body1, now1, offset).checkIn],
                          nextId + 1, caller, body2, now2, offset) == AlreadyCheckedIn
  {
    var rec := CreateOutcome(store, nextId, caller, body1, now1, offset).checkIn;
    WindowIsLocalDay(now1, now2, offset);
    assert TodaysFor(caller.value.userId, now2, offset, (store + [rec])[|store|]);
  }

  /** Complete check-ins by one caller on two different local days, neither already taken, are both accepted. */
  lemma DifferentDaysBothAccepted(store: seq<CheckInRecord>, nextId: RecordId, caller: Option<Auth.AuthUser>,
                                  body1: CheckInBody, now1: int, body2: CheckInBody, now2: int, offset: int)
    requires Authorized(caller) && CompleteBody(body1) && CompleteBody(body2)
    requires forall i :: 0 <= i < |store| ==>
      !TodaysFor(caller.value.userId, now1, offset, store[i]) && !TodaysFor(caller.value.userId, now2, offset, store[i])
    requires DayStart(now1, offset) != DayStart(now2, offset)
    ensures CreateOutcome(store, nextId, caller, body1, now1, offset).Created?
    ensures CreateOutcome(store + [CreateOutcome(store, nextId, caller, body1, now1, offset).checkIn],
                          nextId + 1, caller, body2, now2, offset).Created?
  {
    var rec := CreateOutcome(store, nextId, caller, body1, now1, offset).checkIn;
    WindowIsLocalDay(now1, now2, offset);
    assert !TodaysFor(caller.value.userId, now2, offset, (store + [rec])[|store|]);
  }

  /** Behind the middleware the create handler's own 401 guard never fires. */
  lemma MiddlewareSatisfiesCreateGuard(authorization: Option<string>, verify: string -> Option<Auth.Payload>)
    requires Auth.Authenticate(authorization, verify).Next?
    ensures Authorized(Some(Auth.Authenticate(authorization, verify).user))
  {
  }

  /** The ledger: the collection, the id source and the server's UTC offset. */
  class Ledger {
    var records: seq<CheckInRecord>
    var nextId: RecordId
    const offset: int

    ghost predicate Valid()
      reads this
    {
      StoreInvariant(records, nextId, offset)
    }

    constructor (offset: int)
      ensures Valid()
      ensures records == [] && nextId == 0 && this.offset == offset
    {
      records := [];
      nextId := 0;
      this.offset := offset;
    }

    /** The create handler: caller guard, duplicate check, then validation and insert. */
    method CreateCheckIn(caller: Option<Auth.AuthUser>, body: CheckInBody, now: int) returns (res: CreateResponse)
      requires Valid()
      modifies this
      ensures Valid()
      ensures res == CreateOutcome(old(records), old(nextId), caller, body, now, offset)
      ensures res.Created? ==> records == old(records) + [res.checkIn] && nextId == old(nextId) + 1
      ensures !res.Created? ==> records == old(records) && nextId == old(nextId)
    {
      if caller.None? || !Truthy(caller.value.userId) {
        return CreateUnauthorized;
      }
      var userId := caller.value.userId;
      var existing := FindOne(records, r => TodaysFor(userId, now, offset, r));
      if existing.Some? {
        return AlreadyCheckedIn;
      }
      var created := NewCheckIn(nextId, userId, body, now);
      match created {
        case Err(missing) =>
          return ValidationFailed(missing);
        case Ok(rec) =>
          CreatePreservesInvariant(records, nextId, caller, body, now, offset);
          records := records + [rec];
          nextId := nextId + 1;
          return Created(rec);
      }
    }
  }

  // ---------------------------------------------------------------- get by id

  /** The by-id handler's responses: 500 (no `req.user`), 404 and 200. */
  datatype GetResponse = GetFailed | NotFound | Found(checkIn: CheckInRecord)

  predicate IsOwnedBy(userId: JsValue, r: CheckInRecord) {
    r.user == userId
  }

  /** The by-id filter: `{_id: id, user: userId}`. */
  predicate IsOwnedWithId(userId: JsValue, id: RecordId, r: CheckInRecord) {
    r.id == id && r.user == userId
  }

  /** `findOne({_id: id, user: userId})` answered as a response. */
  function GetCheckIn(store: seq<CheckInRecord>, caller: Option<Auth.AuthUser>, id: RecordId): (r: GetResponse)
    ensures r.GetFailed? <==> caller.None?
    ensures r.Found? ==> r.checkIn in store && r.checkIn.id == id && r.checkIn.user == caller.value.userId
    ensures r.NotFound? <==> caller.Some? && forall i :: 0 <= i < |store| ==> !(store[i].id == id && store[i].user == caller.value.userId)
  {
    match caller
    case None => GetFailed
    case Some(u) =>
      match FindOne(store, r => IsOwnedWithId(u.userId, id, r))
      case None => NotFound
      case Some(rec) => Found(rec)
  }

  /** The caller's own documents. */
  function OwnedBy(store: seq<CheckInRecord>, userId: JsValue): (rs: seq<CheckInRecord>)
    ensures forall r :: r in rs <==> r in store && r.user == userId
  {
    Find(store, r => IsOwnedBy(userId, r))
  }

  /**
   * The by-id answer depends only on the caller's own documents: removing every other
   * user's documents changes nothing, so another user's id reads exactly like a missing one.
   */
  lemma GetCheckInSeesOnlyOwnRecords(store: seq<CheckInRecord>, caller: Option<Auth.AuthUser>, id: RecordId)
    requires caller.Some?
    ensures GetCheckIn(store, caller, id) == GetCheckIn(OwnedBy(store, caller.value.userId), caller, id)
  {
    var u := caller.value.userId;
    FindOneAfterFind(store, r => IsOwnedBy(u, r), r => IsOwnedWithId(u, id, r));
  }

  // ---------------------------------------------------------------- list

  /** One element of the list response (the date and time strings are formatted from `createdAt`). */
  datatype ListEntry = ListEntry(id: RecordId, location: string, address: string, createdAt: int)

  /** The list handler's responses: 500 (no `req.user`) and 200 with the entries and their count. */
  datatype ListResponse = ListFailed | Listed(entries: seq<ListEntry>, count: nat)

  function EntryOf(r: CheckInRecord): ListEntry {
    ListEntry(r.id, r.checkInLocation, r.currentAddress, r.createdAt)
  }

  /** The `.map(...)` of the handler over a sequence of documents. */
  function Project(rs: seq<CheckInRecord>): (es: seq<ListEntry>)
    ensures |es| == |rs|
    ensures forall i :: 0 <= i < |rs| ==> es[i] == EntryOf(rs[i])
  {
    seq(|rs|, i requires 0 <= i < |rs| => EntryOf(rs[i]))
  }

  /**
   * The list filter: the caller's documents, and when both dates are given, only those
   * with `startDate <= createdAt <= endDate` (inclusive at both ends).
   */
  predicate Listable(userId: JsValue, startDate: Option<int>, endDate: Option<int>, r: CheckInRecord) {
    r.user == userId && (startDate.None? || endDate.None? || startDate.value <= r.createdAt <= endDate.value)
  }

  /** Ordered by `createdAt`, newest first (`sort('-createdAt')`). */
  predicate NewestFirst(es: seq<ListEntry>) {
    forall i, j :: 0 <= i < j < |es| ==> es[i].createdAt >= es[j].createdAt
  }

  /** The head of a newest-first list is at least as new as every element. */
  lemma HeadIsNewest(es: seq<ListEntry>)
    requires NewestFirst(es)
    ensures forall x :: x in es ==> es[0].createdAt >= x.createdAt
  {
    forall x | x in es ensures es[0].createdAt >= x.createdAt {
      var k :| 0 <= k < |es| && es[k] == x;
    }
  }

  /** An element at least as new as every element of a newest-first list can go in front. */
  lemma ConsNewestFirst(h: ListEntry, t: seq<ListEntry>)
    requires NewestFirst(t)
    requires forall x :: x in t ==> h.createdAt >= x.createdAt
    ensures NewestFirst([h] + t)
  {
    var r := [h] + t;
    forall i, j | 0 <= i < j < |r| ensures r[i].createdAt >= r[j].createdAt {
      assert r[j] == t[j - 1];
      if i > 0 {
        assert r[i] == t[i - 1];
      }
    }
  }

  /** One insertion step of the newest-first sort. */
  function InsertNewestFirst(e: ListEntry, es: seq<ListEntry>): (r: seq<ListEntry>)
    requires NewestFirst(es)
    ensures NewestFirst(r)
    ensures multiset(r) == multiset(es) + multiset{e}
    ensures forall x :: x in r ==> x == e || x in es
  {
    if es == [] || es[0].createdAt <= e.createdAt then
      HeadIsNewest(es);
      ConsNewestFirst(e, es);
      [e] + es
    else
      var head, tail := es[0], es[1..];
      assert es == [head] + tail;
      assert NewestFirst(tail);
      HeadIsNewest(es);
      var rest := InsertNewestFirst(e, tail);
      ConsNewestFirst(head, rest);
      assert multiset([head] + rest) == multiset{head} + multiset(rest);
      [head] + rest
  }

  function SortNewestFirst(es: seq<ListEntry>): (r: seq<ListEntry>)
    ensures NewestFirst(r)
    ensures multiset(r) == multiset(es)
  {
    if es == [] then []
    else
      assert es == [es[0]] + es[1..];
      InsertNewestFirst(es[0], SortNewestFirst(es[1..]))
  }

  /** The list handler: filter, sort newest first, project; `count` is the number listed. */
  function GetUserCheckIns(store: seq<CheckInRecord>, caller: Option<Auth.AuthUser>, startDate: Option<int>, endDate: Option<int>): (r: ListResponse)
    ensures r.ListFailed? <==> caller.None?
    ensures r.Listed? ==> r.count == |r.entries|
    ensures r.Listed? ==> NewestFirst(r.entries)
    ensures r.Listed? ==> multiset(r.entries) == multiset(Project(Find(store, rec => Listable(caller.value.userId, startDate, endDate, rec))))
  {
    match caller
    case None => ListFailed
    case Some(u) =>
      var entries := SortNewestFirst(Project(Find(store, rec => Listable(u.userId, startDate, endDate, rec))));
      Listed(entries, |entries|)
  }

  /**
   * Exactly the caller's documents in range are listed: each one's entry is in the
   * response, and each entry comes from one of them.
   */
  lemma ListedExactly(store: seq<CheckInRecord>, caller: Option<Auth.AuthUser>, startDate: Option<int>, endDate: Option<int>)
    requires caller.Some?
    ensures forall i :: 0 <= i < |store| && store[i].user == caller.value.userId &&
                        (startDate.None? || endDate.None? || startDate.value <= store[i].createdAt <= endDate.value) ==>
              EntryOf(store[i]) in GetUserCheckIns(store, caller, startDate, endDate).entries
    ensures forall e :: e in GetUserCheckIns(store, caller, startDate, endDate).entries ==>
              exists i :: 0 <= i < |store| && Listable(caller.value.userId, startDate, endDate, store[i]) && EntryOf(store[i]) == e
  {
    var u := caller.value.userId;
    var listable := rec => Listable(u, startDate, endDate, rec);
    var projected := Project(Find(store, listable));
    var entries := GetUserCheckIns(store, caller, startDate, endDate).entries;
    SameMembers(entries, projected);
    forall i | 0 <= i < |store| && Listable(u, startDate, endDate, store[i])
      ensures EntryOf(store[i]) in entries
    {
      ProjectedFindCovers(store, listable, i);
    }
    forall e | e in entries
      ensures exists i :: 0 <= i < |store| && Listable(u, startDate, endDate, store[i]) && EntryOf(store[i]) == e
    {
      ProjectedFindComesFrom(store, listable, e);
    }
  }

  /** Sequences with the same multiset have the same elements. */
  lemma SameMembers(a: seq<ListEntry>, b: seq<ListEntry>)
    requires multiset(a) == multiset(b)
    ensures forall e :: e in a <==> e in b
  {
    forall e ensures e in a <==> e in b {
      assert e in a <==> e in multiset(a);
      assert e in b <==> e in multiset(b);
    }
  }

  /** The entry of every matching document is among the projected matches. */
  lemma ProjectedFindCovers(store: seq<CheckInRecord>, matches: CheckInRecord -> bool, i: int)
    requires 0 <= i < |store| && matches(store[i])
    ensures EntryOf(store[i]) in Project(Find(store, matches))
  {
    var found := Find(store, matches);
    assert store[i] in found;
    var k :| 0 <= k < |found| && found[k] == store[i];
    assert Project(found)[k] == EntryOf(store[i]);
  }

  /** Every projected match is the entry of some matching stored document. */
  lemma ProjectedFindComesFrom(store: seq<CheckInRecord>, matches: CheckInRecord -> bool, e: ListEntry)
    requires e in Project(Find(store, matches))
    ensures exists i :: 0 <= i < |store| && matches(store[i]) && EntryOf(store[i]) == e
  {
    var found := Find(store, matches);
    var k :| 0 <= k < |Project(found)| && Project(found)[k] == e;
    assert found[k] in found;
    var i :| 0 <= i < |store| && store[i] == found[k];
  }

  // ---------------------------------------------------------------- today's status

  /** The today handler's responses: 500 (no `req.user`) and 200 with the flag and the document. */
  datatype TodayResponse = TodayFailed | TodayStatus(hasCheckedIn: bool, checkIn: Option<CheckInRecord>)

  function GetTodayCheckIn(store: seq<CheckInRecord>, caller: Option<Auth.AuthUser>, now: int, offset: int): (r: TodayResponse)
    ensures r.TodayFailed? <==> caller.None?
    ensures r.TodayStatus? ==> (r.hasCheckedIn <==> r.checkIn.Some?)
    ensures r.TodayStatus? ==>
      (r.hasCheckedIn <==> exists i :: 0 <= i < |store| && TodaysFor(caller.value.userId, now, offset, store[i]))
    ensures r.TodayStatus? && r.checkIn.Some? ==>
      r.checkIn.value in store && TodaysFor(caller.value.userId, now, offset, r.checkIn.value)
  {
    match caller
    case None => TodayFailed
    case Some(u) =>
      var found := FindOne(store, r => TodaysFor(u.userId, now, offset, r));
      TodayStatus(found.Some?, found)
  }

  /** Today's status and create use one window: the status says checked in exactly when create would refuse. */
  lemma TodayAgreesWithCreate(store: seq<CheckInRecord>, nextId: RecordId, caller: Option<Auth.AuthUser>, body: CheckInBody, now: int, offset: int)
    requires Authorized(caller)
    ensures GetTodayCheckIn(store, caller, now, offset).hasCheckedIn <==>
            CreateOutcome(store, nextId, caller, body, now, offset) == AlreadyCheckedIn
  {
  }

  /** After a create, today's status on the same local day reports exactly the new document. */
  lemma TodayReportsCreated(store: seq<CheckInRecord>, nextId: RecordId, caller: Option<Auth.AuthUser>, body: CheckInBody,
                            now: int, later: int, offset: int)
    requires StoreInvariant(store, nextId, offset)
    requires CreateOutcome(store, nextId, caller, body, now, offset).Created?
    requires DayStart(later, offset) == DayStart(now, offset)
    ensures GetTodayCheckIn(store + [CreateOutcome(store, nextId, caller, body, now, offset).checkIn], caller, later, offset)
            == TodayStatus(true, Some(CreateOutcome(store, nextId, caller, body, now, offset).checkIn))
  {
    var rec := CreateOutcome(store, nextId, caller, body, now, offset).checkIn;
    var s' := store + [rec];
    var u := caller.value.userId;
    CreatePreservesInvariant(store, nextId, caller, body, now, offset);
    WindowIsLocalDay(now, later, offset);
    assert TodaysFor(u, later, offset, s'[|store|]);
    var r := GetTodayCheckIn(s', caller, later, offset);
    var i :| 0 <= i < |s'| && s'[i] == r.checkIn.value;
    AtMostOneToday(s', nextId + 1, offset, u, later, i, |store|);
  }
}
