/**
 * The route handlers of notes_backend/src/api/routes_notes.py over the
 * module-level state they share. The globals `_STORE` and `_NEXT_ID` become
 * the fields of one object; `order` is the key insertion order of `_STORE`,
 * which a Python dict keeps and which `list_notes` depends on.
 *
 * Each method does what its handler does, step by step, and its contract ties
 * the new state and the answer to the corresponding function of NoteStore,
 * where the properties of the operation are stated and proved.
 */
module RoutesNotes {
  import opened Models
  import opened Recency
  import opened NoteStore

  class NotesStore {
    var store: map<int, Note>
    var order: seq<int>
    var nextId: nat

    /** The state of the object as a value. */
    function State(): Store
      reads this
    {
      Store(store, order, nextId)
    }

    ghost predicate Valid()
      reads this
    {
      NoteStore.Valid(State())
    }

    /** Module load: an empty store and `_NEXT_ID = 1`. */
    constructor ()
      ensures Valid() && State() == Initial
    {
      store := map[];
      order := [];
      nextId := 1;
    }

    /** _allocate_id: hands out the counter's value and advances it by one. */
    method AllocateId() returns (nid: int)
      requires Valid()
      modifies this
      ensures Valid()
      ensures nid == old(nextId) && nextId == old(nextId) + 1
      ensures store == old(store) && order == old(order)
      ensures forall k :: k in store ==> k < nid
    {
      nid := nextId;
      nextId := nextId + 1;
    }

    /** create_note. */
    method CreateNote(payload: NoteCreate, now: int) returns (note: Note)
      requires Valid() && ValidCreate(payload)
      modifies this
      ensures Valid()
      ensures (State(), note) == Create(old(State()), payload, now)
    {
      ghost var before := State();
      var nid := AllocateId();
      note := Note(nid, payload.title, payload.content, now, now);
      store := store[nid := note];
      order := order + [nid];
      CreateValid(before, payload, now);
    }

    /** list_notes: reads the state only. */
    method ListNotes() returns (notes: seq<Note>)
      requires Valid()
      ensures notes == List(State())
      ensures |notes| == |store| && Ordered(notes)
      ensures forall k :: k in store ==> store[k] in notes
    {
      var values := InsertionOrder(State());
      notes := SortNewestFirst(values);
    }

    /** get_note: reads the state only. */
    method GetNote(noteId: int) returns (r: Result<Note>)
      ensures r == Get(State(), noteId)
      ensures r.Err? <==> noteId !in store
    {
      if noteId !in store {
        return Err(NotFound);
      }
      r := Ok(store[noteId]);
    }

    /** replace_note. */
    method ReplaceNote(noteId: int, payload: NoteCreate, now: int) returns (r: Result<Note>)
      requires Valid() && ValidCreate(payload)
      modifies this
      ensures Valid()
      ensures (State(), r) == Replace(old(State()), noteId, payload, now)
    {
      ghost var before := State();
      if noteId !in store {
        return Err(NotFound);
      }
      var existing := store[noteId];
      var updated := Note(noteId, payload.title, payload.content, existing.createdAt, now);
      store := store[noteId := updated];
      r := Ok(updated);
      ReplaceValid(before, noteId, payload, now);
    }

    /** update_note. */
    method UpdateNote(noteId: int, payload: NoteUpdate, now: int) returns (r: Result<Note>)
      requires Valid() && ValidUpdate(payload)
      modifies this
      ensures Valid()
      ensures (State(), r) == Update(old(State()), noteId, payload, now)
    {
      ghost var before := State();
      if noteId !in store {
        return Err(NotFound);
      }
      var existing := store[noteId];
      var newTitle := if payload.title.Some? then payload.title.value else existing.title;
      var newContent := if payload.content.Some? then payload.content.value else existing.content;
      var updated := Note(existing.id, newTitle, newContent, existing.createdAt, now);
      store := store[noteId := updated];
      r := Ok(updated);
      UpdateValid(before, noteId, payload, now);
    }

    /** delete_note. */
    method DeleteNote(noteId: int) returns (r: Result<()>)
      requires Valid()
      modifies this
      ensures Valid()
      ensures (State(), r) == Delete(old(State()), noteId)
    {
      ghost var before := State();
      if noteId !in store {
        return Err(NotFound);
      }
      store := store - {noteId};
      order := Without(order, noteId);
      r := Ok(());
      DeleteValid(before, noteId);
    }
  }

  /**
   * A session against a fresh store: two creates, a listing (the note
   * created later comes first), then a delete and a get of the deleted id.
   * Only the contracts of the methods above are used.
   */
  method ListingWalkthrough(t1: int, t2: int)
    requires t1 < t2
  {
    var notes := new NotesStore();
    var a := notes.CreateNote(NoteCreate("A", "1"), t1);
    assert a.id == 1;
    var b := notes.CreateNote(NoteCreate("B", "2"), t2);
    assert b.id == 2;
    ListsNewerFirst(notes, a, b);
    var deleted := notes.DeleteNote(1);
    assert deleted == Ok(());
    var got := notes.GetNote(1);
    assert got == Err(NotFound);
  }

  /** With two notes, the one updated later is listed first. */
  method ListsNewerFirst(notes: NotesStore, older: Note, newer: Note)
    requires notes.Valid() && notes.store == map[older.id := older, newer.id := newer]
    requires older.id != newer.id && older.updatedAt < newer.updatedAt
  {
    var listed := notes.ListNotes();
    ListDetermined(notes.State(), [newer, older]);
    assert listed == [newer, older];
  }

  /**
   * A partial update keeps the content it is not given, a replace keeps
   * `created_at`, and after both notes are deleted the listing is empty.
   */
  method UpdateWalkthrough(t1: int, t2: int, t3: int, t4: int) {
    var notes := new NotesStore();
    var a := notes.CreateNote(NoteCreate("A", "1"), t1);
    var b := notes.CreateNote(NoteCreate("B", "2"), t2);
    var patched := notes.UpdateNote(2, NoteUpdate(Some("B2"), None), t3);
    assert patched == Ok(Note(2, "B2", "2", t2, t3));
    var replaced := notes.ReplaceNote(2, NoteCreate("C", "3"), t4);
    assert replaced == Ok(Note(2, "C", "3", t2, t4));
    var deleted := notes.DeleteNote(1);
    deleted := notes.DeleteNote(2);
    assert deleted == Ok(());
    var listed := notes.ListNotes();
    assert listed == [];
  }
}
