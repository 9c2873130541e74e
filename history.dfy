/**
 * Sequences of requests served one after another by the store of
 * routes_notes.py, and what holds over all of them: the invariant, the
 * counter only moving forward, ids never handed out again, and (given a clock
 * that does not run backwards) chronological timestamps.
 */
module History {
  import opened Models
  import opened NoteStore

  /** One call of a route handler, with the clock reading it would take. */
  datatype Request =
    | CreateRequest(payload: NoteCreate, now: int)
    | ListRequest
    | GetRequest(id: int)
    | ReplaceRequest(id: int, payload: NoteCreate, now: int)
    | UpdateRequest(id: int, patch: NoteUpdate, now: int)
    | DeleteRequest(id: int)

  /**
   * The request passed payload validation and so reaches its handler; a
   * rejected request never touches the store (nor the counter).
   */
  predicate Accepted(q: Request) {
    match q
    case CreateRequest(p, _) => ValidCreate(p)
    case ReplaceRequest(_, p, _) => ValidCreate(p)
    case UpdateRequest(_, p, _) => ValidUpdate(p)
    case _ => true
  }

  predicate AllAccepted(qs: seq<Request>) {
    forall i :: 0 <= i < |qs| ==> Accepted(qs[i])
  }

  /** The store after serving `q`. */
  function Step(s: Store, q: Request): Store
    requires Accepted(q)
  {
    match q
    case CreateRequest(p, now) => Create(s, p, now).0
    case ListRequest => s
    case GetRequest(_) => s
    case ReplaceRequest(id, p, now) => Replace(s, id, p, now).0
    case UpdateRequest(id, p, now) => Update(s, id, p, now).0
    case DeleteRequest(id) => Delete(s, id).0
  }

  /** The store after serving `qs` in order. */
  function Run(s: Store, qs: seq<Request>): Store
    requires AllAccepted(qs)
    decreases qs
  {
    if qs == [] then s else Run(Step(s, qs[0]), qs[1..])
  }

  /** One request keeps the invariant and never moves the counter back. */
  lemma StepValid(s: Store, q: Request)
    requires Valid(s) && Accepted(q)
    ensures Valid(Step(s, q))
    ensures s.nextId <= Step(s, q).nextId
  {
    match q
    case CreateRequest(p, now) => CreateValid(s, p, now);
    case ListRequest =>
    case GetRequest(_) =>
    case ReplaceRequest(id, p, now) => ReplaceValid(s, id, p, now);
    case UpdateRequest(id, p, now) => UpdateValid(s, id, p, now);
    case DeleteRequest(id) => DeleteValid(s, id);
  }

  /** Every state the store reaches from a valid one is valid, with a counter no smaller. */
  lemma {:induction false} RunValid(s: Store, qs: seq<Request>)
    requires Valid(s) && AllAccepted(qs)
    ensures Valid(Run(s, qs))
    ensures s.nextId <= Run(s, qs).nextId
    decreases qs
  {
    if qs != [] {
      StepValid(s, qs[0]);
      RunValid(Step(s, qs[0]), qs[1..]);
    }
  }

  /** In particular every state reachable from process start is valid. */
  lemma ReachableValid(qs: seq<Request>)
    requires AllAccepted(qs)
    ensures Valid(Run(Initial, qs))
    ensures 1 <= Run(Initial, qs).nextId
  {
    InitialValid();
    RunValid(Initial, qs);
  }

  /**
   * An id below the counter that names no note is retired for good: no
   * later request brings it back, and every later get of it is NotFound.
   */
  lemma {:induction false} RetiredStaysRetired(s: Store, id: int, qs: seq<Request>)
    requires Valid(s) && AllAccepted(qs)
    requires id < s.nextId && id !in s.notes
    ensures id !in Run(s, qs).notes
    ensures Get(Run(s, qs), id) == Err(NotFound)
    decreases qs
  {
    if qs != [] {
      StepValid(s, qs[0]);
      RetiredStaysRetired(Step(s, qs[0]), id, qs[1..]);
    }
  }

  /** A deleted id is never reissued: get of it fails with NotFound from then on. */
  lemma DeletedNeverReturns(s: Store, id: int, qs: seq<Request>)
    requires Valid(s) && AllAccepted(qs)
    requires id in s.notes
    ensures Get(Run(Delete(s, id).0, qs), id) == Err(NotFound)
  {
    DeleteValid(s, id);
    RetiredStaysRetired(Delete(s, id).0, id, qs);
  }

  /**
   * A create after any number of requests returns an id larger than that of
   * every note present now, and than every id handed out so far.
   */
  lemma LaterIdsLarger(s: Store, qs: seq<Request>, p: NoteCreate, now: int)
    requires Valid(s) && AllAccepted(qs) && ValidCreate(p)
    ensures s.nextId <= Create(Run(s, qs), p, now).1.id
    ensures forall k :: k in s.notes ==> k < Create(Run(s, qs), p, now).1.id
  {
    RunValid(s, qs);
  }

  /** Notes are chronological: none was updated before it was created. */
  ghost predicate Chronological(s: Store) {
    forall k :: k in s.notes ==> s.notes[k].createdAt <= s.notes[k].updatedAt
  }

  /** The clock reading `now` is not earlier than any stored update time. */
  ghost predicate NotEarlier(s: Store, now: int) {
    forall k :: k in s.notes ==> s.notes[k].updatedAt <= now
  }

  /** The clock reading after `q`, given the one before it. */
  function ClockAfter(q: Request, t: int): int {
    match q
    case CreateRequest(_, now) => now
    case ReplaceRequest(_, _, now) => now
    case UpdateRequest(_, _, now) => now
    case _ => t
  }

  /** The readings taken by `qs` never go below `t` and never decrease. */
  predicate Clocked(t: int, qs: seq<Request>)
    decreases qs
  {
    qs == [] || (t <= ClockAfter(qs[0], t) && Clocked(ClockAfter(qs[0], t), qs[1..]))
  }

  /** One request with a clock reading not before `t` keeps the notes chronological. */
  lemma StepChronological(s: Store, q: Request, t: int)
    requires Accepted(q) && Chronological(s) && NotEarlier(s, t) && t <= ClockAfter(q, t)
    ensures Chronological(Step(s, q)) && NotEarlier(Step(s, q), ClockAfter(q, t))
  {
  }

  /**
   * Under a clock that never runs backwards, no note ever has `updated_at`
   * earlier than `created_at`.
   */
  lemma {:induction false} RunChronological(s: Store, qs: seq<Request>, t: int)
    requires AllAccepted(qs) && Chronological(s) && NotEarlier(s, t) && Clocked(t, qs)
    ensures Chronological(Run(s, qs))
    decreases qs
  {
    if qs != [] {
      StepChronological(s, qs[0], t);
      RunChronological(Step(s, qs[0]), qs[1..], ClockAfter(qs[0], t));
    }
  }
}
