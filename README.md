# Notes store

A Dafny model of the in-memory notes store behind a small notes web service.
The module `routes_notes.py` keeps process-wide state: a dictionary from
integer id to note, and a counter that hands out ids and starts at 1. It serves
six handlers over that state: create, list, get, replace (full), update
(partial) and delete. `models.py` gives the record shapes and the field
constraints: a title of 1 to 200 characters, free content, and optional fields
in a partial update.

Layout (one module per file):

- `models.dfy` (`Models`): the `Note`, `NoteCreate` and `NoteUpdate` records, and the
  validity predicates `ValidTitle`, `ValidCreate`, `ValidUpdate` and `ValidNote`.
- `recency.dfy` (`Recency`): the ordering used by list. Python's stable
  `sorted(..., key=updated_at, reverse=True)` is modelled as a stable insertion sort.
  Lemmas show its output is a permutation of its input, newest first. For an input
  whose ids ascend, equally recent notes come out in ascending id, which is their
  input order. Such an arrangement is unique.
- `note_store.dfy` (`NoteStore`): the store as a value. It holds the dictionary
  entries, the dictionary's key insertion order and the counter. Create, replace,
  update and delete are functions from the old store to the new store and the
  answer. Get and list only read the store and return just the answer. It also
  holds the store invariant `Valid` and the lemmas about single operations.
- `routes_notes.dfy` (`RoutesNotes`): the class `NotesStore`. Its fields `store`,
  `order` and `nextId` are the module globals. Its methods perform each handler's
  steps in place and are proved equal to the `NoteStore` functions. Two client
  methods replay a short session using only those contracts.
- `history.dfy` (`History`): sequences of requests. It proves the invariant for every
  reachable state, that the counter never moves back, and that a deleted id never
  returns. Given a clock that does not run backwards, it also proves that timestamps
  stay chronological.

The store invariant (`NoteStore.Valid`) has four parts:

- every key `k` holds a note whose id is `k`;
- every key satisfies `1 <= k < nextId`;
- every stored title is valid;
- the insertion order lists each key once, in ascending order.

Keys enter the dictionary only through create, and always with a fresh id larger than
every earlier id. Assigning to an existing key keeps its position. So the dictionary's
iteration order is ascending id. Because Python's sort is stable, notes with equal
`updated_at` are listed in ascending id. The model follows that code: the listing is
`Ordered`, meaning newer first and, at equal times, smaller id first.
`NoteStore.ListDetermined` shows that this contract fixes the listing completely.

Time is a parameter: every writing operation takes the clock reading `now: int`.

Points where the code's behaviour is worth stating exactly:

- Among equally recent notes the listing is in ascending id, as explained above.
- Replace and update set `updated_at` to the clock reading and nothing more, so the
  code never makes it increase. `History.RunChronological` proves
  `created_at <= updated_at` only when the clock never runs backwards.
- The handlers test `if not note`. A pydantic model instance is always truthy, so this
  is the same as testing that the key is absent, which is how the model states it.
- `update_note` takes the new id from `existing.id`, and `replace_note` takes it from
  the path parameter. The model keeps both as written. `NoteStore.UpdateValid` shows
  that they agree under the invariant.

## Model

| member | source | states |
|---|---|---|
| Models.PayloadConstraints | notes_backend/src/api/models.py:9-23 | a create/replace payload is accepted exactly when its title has 1..200 characters, whatever the content, the empty string included; a patch with an absent title is always accepted, one with a present title exactly when that title is; the empty patch is accepted |
| Recency.Insert | notes_backend/src/api/routes_notes.py:81 | one insertion step of the stable sort yields the input plus the inserted note, as a multiset |
| Recency.InsertNewestFirst | notes_backend/src/api/routes_notes.py:81 | inserting into a newest-first sequence keeps it newest-first |
| Recency.SortNewestFirst | notes_backend/src/api/routes_notes.py:81 | the sort returns a permutation of its input, ordered by `updated_at` non-increasing |
| Recency.InsertOrdered | notes_backend/src/api/routes_notes.py:81 | inserting a note whose id is below all ids of an ordered sequence gives an ordered sequence (newer first, ties by id) |
| Recency.SortOrdered | notes_backend/src/api/routes_notes.py:81 | stability: sorting a sequence with ascending ids lists equally recent notes in ascending id |
| Recency.OrderedUnique | notes_backend/src/api/routes_notes.py:81 | two ordered sequences with the same multiset of notes are equal |
| Recency.OrderedOnce | notes_backend/src/api/routes_notes.py:81 | an ordered sequence contains each note at most once |
| Recency.SameMembersSame | notes_backend/src/api/routes_notes.py:81 | two ordered sequences with the same members are equal |
| NoteStore.InitialValid | notes_backend/src/api/routes_notes.py:21-22 | the initial store is empty, the counter is 1, and the invariant holds |
| NoteStore.Without | notes_backend/src/api/routes_notes.py:215 | removing a key from the insertion order drops exactly that key and keeps the rest ascending |
| NoteStore.ValuesInOrder | notes_backend/src/api/routes_notes.py:81 | `values()` lists, position by position, the note stored under each key of the insertion order |
| NoteStore.InsertionOrder | notes_backend/src/api/routes_notes.py:81 | the dictionary's values have ascending ids, hold every stored note and only stored notes, one entry per key |
| NoteStore.Create | notes_backend/src/api/routes_notes.py:60-64 | the new id is the counter, which advances by exactly one; title and content come from the payload; `created_at == updated_at == now`; the note is added under its own id and appended to the insertion order; every other entry is unchanged; in a valid store the id was not a key before and exceeds every existing key |
| NoteStore.Get | notes_backend/src/api/routes_notes.py:104-107 | returns the note under the id exactly when the id is a key, else NotFound; in a valid store the returned note carries that id and a valid title |
| NoteStore.List | notes_backend/src/api/routes_notes.py:81 | under the invariant the listing holds exactly the stored notes, once each, newest first, equally recent notes by ascending id |
| NoteStore.ListDetermined | notes_backend/src/api/routes_notes.py:81 | any ordered sequence holding exactly the stored notes equals the listing |
| NoteStore.Replace | notes_backend/src/api/routes_notes.py:134-147 | absent id: NotFound and the store and counter are unchanged; present id: id and `created_at` kept, title and content from the payload, `updated_at = now`, only that entry changed |
| NoteStore.Update | notes_backend/src/api/routes_notes.py:174-189 | absent id: NotFound and nothing changes; present id: each supplied field taken from the patch, each absent field kept, id and `created_at` kept, `updated_at = now`, only that entry changed |
| NoteStore.Delete | notes_backend/src/api/routes_notes.py:213-216 | absent id: NotFound and nothing changes; present id: exactly that key leaves the dictionary and the insertion order, and the counter is untouched |
| NoteStore.CreateValid | notes_backend/src/api/routes_notes.py:60-63 | create keeps the store invariant |
| NoteStore.ReplaceValid | notes_backend/src/api/routes_notes.py:134-147 | replace keeps the store invariant |
| NoteStore.UpdateValid | notes_backend/src/api/routes_notes.py:174-189 | update keeps the store invariant, and the id it writes from the existing note equals the requested id |
| NoteStore.DeleteValid | notes_backend/src/api/routes_notes.py:213-216 | delete keeps the store invariant |
| NoteStore.OrderCoversKeys | notes_backend/src/api/routes_notes.py:21 | the insertion order has exactly as many entries as the dictionary has keys |
| NoteStore.CreateThenGet | notes_backend/src/api/routes_notes.py:60-64 | after create, get of the new id returns the new note and list contains it |
| NoteStore.DeleteThenGet | notes_backend/src/api/routes_notes.py:213-215 | after delete, get of that id is NotFound and the id is below the counter |
| NoteStore.FullPatchIsReplace | notes_backend/src/api/routes_notes.py:174-189 | a patch that supplies both fields has the same effect and answer as a full replace |
| NoteStore.EmptyPatchTouches | notes_backend/src/api/routes_notes.py:178-186 | a patch with no fields keeps the note except that `updated_at` becomes `now` |
| RoutesNotes.NotesStore.constructor | notes_backend/src/api/routes_notes.py:21-22 | the object starts as the initial store: no notes, counter 1 |
| RoutesNotes.NotesStore.AllocateId | notes_backend/src/api/routes_notes.py:30-35 | returns the counter's old value, advances it by one, leaves the dictionary alone, and the returned id exceeds every key |
| RoutesNotes.NotesStore.CreateNote | notes_backend/src/api/routes_notes.py:50-64 | the new state and the returned note are those of `NoteStore.Create`; the invariant is kept |
| RoutesNotes.NotesStore.ListNotes | notes_backend/src/api/routes_notes.py:74-81 | returns `NoteStore.List` of the current state: every stored note once, ordered |
| RoutesNotes.NotesStore.GetNote | notes_backend/src/api/routes_notes.py:91-107 | returns `NoteStore.Get` of the current state; NotFound exactly when the id is absent |
| RoutesNotes.NotesStore.ReplaceNote | notes_backend/src/api/routes_notes.py:117-147 | the new state and the answer are those of `NoteStore.Replace`; the invariant is kept |
| RoutesNotes.NotesStore.UpdateNote | notes_backend/src/api/routes_notes.py:157-189 | the new state and the answer are those of `NoteStore.Update`; the invariant is kept |
| RoutesNotes.NotesStore.DeleteNote | notes_backend/src/api/routes_notes.py:200-216 | the new state and the answer are those of `NoteStore.Delete`; the invariant is kept |
| History.StepValid | notes_backend/src/api/routes_notes.py:50-216 | every accepted request keeps the invariant and never lowers the counter |
| History.RunValid | notes_backend/src/api/routes_notes.py:50-216 | any sequence of accepted requests keeps the invariant and never lowers the counter |
| History.ReachableValid | notes_backend/src/api/routes_notes.py:21-22 | every state reachable from process start satisfies the invariant |
| History.RetiredStaysRetired | notes_backend/src/api/routes_notes.py:30-35 | an id below the counter that names no note never names one again, and get of it stays NotFound |
| History.DeletedNeverReturns | notes_backend/src/api/routes_notes.py:213-215 | ids are never reissued: after delete, get of the id is NotFound after any later requests |
| History.LaterIdsLarger | notes_backend/src/api/routes_notes.py:30-35 | a create after any requests returns an id at least the earlier counter and larger than every earlier key |
| History.StepChronological | notes_backend/src/api/routes_notes.py:61-62 | at a clock reading no earlier than every stored `updated_at`, a request keeps `created_at <= updated_at` for every note |
| History.RunChronological | notes_backend/src/api/routes_notes.py:50-189 | with non-decreasing clock readings, `created_at <= updated_at` holds for every note after any run |

## Left out

- The HTTP layer is not modelled: FastAPI routing, status codes 201/204/404/422 and `HTTPException`. A missing note is the `NotFound` error value.
- Payload parsing and coercion by pydantic are not modelled. The accepted payload is the precondition `ValidCreate` or `ValidUpdate`. A rejected request never reaches the store, which `History.Accepted` captures.
- Pydantic re-validates when a `Note` is built. Under the payload preconditions that check always succeeds, so it is not modelled.
- The wall clock (`_now`) is not modelled. Each operation takes an abstract integer reading `now` instead.
- Concurrency is not modelled. The globals are unguarded, and requests are modelled as strictly sequential.
- `notes_backend/src/api/main.py` is not modelled: app construction, CORS, OpenAPI tags and the health endpoints.
- The `from_attributes` setting of `Note` is not modelled, because it only affects serialisation.
