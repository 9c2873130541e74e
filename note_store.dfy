/**
 * The in-memory notes store of notes_backend/src/api/routes_notes.py as a
 * value: the dictionary `_STORE`, the order in which its keys were inserted
 * (a Python dict iterates in that order, and `list_notes` sorts its values
 * stably), and the counter `_NEXT_ID`. Each endpoint is a function from the
 * old store to the new store and its answer; the class in routes_notes.dfy
 * performs the same steps in place.
 *
 * The wall clock is not read: each writing operation takes the time `now`.
 */
module NoteStore {
  import opened Models
  import opened Recency

  /** The one failure of the store: the id names no note (HTTP 404). */
  datatype Error = NotFound

  datatype Result<+T> = Ok(value: T) | Err(error: Error)

  datatype Store = Store(notes: map<int, Note>, order: seq<int>, nextId: nat)

  /** The state at process start: no notes and the counter at 1. */
  const Initial: Store := Store(map[], [], 1)

  predicate StrictlyIncreasing(s: seq<int>) {
    forall i, j :: 0 <= i < j < |s| ==> s[i] < s[j]
  }

  /**
   * The store invariant: every note sits under its own id, which was handed
   * out by the counter, and has a valid title; the insertion order lists each
   * key once, in ascending order.
   */
  ghost predicate Valid(s: Store) {
    && 1 <= s.nextId
    && (forall k :: k in s.notes ==> 1 <= k < s.nextId && s.notes[k].id == k && ValidNote(s.notes[k]))
    && StrictlyIncreasing(s.order)
    && (forall k :: k in s.order <==> k in s.notes)
  }

  lemma InitialValid()
    ensures Valid(Initial) && Initial.notes == map[] && Initial.nextId == 1
  {
  }

  /** The insertion order after `del d[k]`: `k` is dropped, the rest keep their places. */
  function Without(s: seq<int>, k: int): (r: seq<int>)
    ensures forall x :: x in r <==> x in s && x != k
    ensures StrictlyIncreasing(s) ==> StrictlyIncreasing(r)
  {
    if s == [] then []
    else if s[0] == k then Without(s[1..], k)
    else
      var rest := Without(s[1..], k);
      assert StrictlyIncreasing(s) ==> StrictlyIncreasing([s[0]] + rest) by {
        if StrictlyIncreasing(s) {
          forall j | 0 <= j < |rest| ensures s[0] < rest[j] {
            assert rest[j] in rest;
            var i :| 0 <= i < |s[1..]| && s[1..][i] == rest[j];
            assert s[i + 1] == rest[j];
          }
        }
      }
      [s[0]] + rest
  }

  /** The values of `notes` in the order of `keys` (`d.values()` of a Python dict). */
  function ValuesInOrder(notes: map<int, Note>, keys: seq<int>): (r: seq<Note>)
    requires forall i :: 0 <= i < |keys| ==> keys[i] in notes
    ensures |r| == |keys|
    ensures forall i :: 0 <= i < |keys| ==> r[i] == notes[keys[i]]
  {
    if keys == [] then [] else [notes[keys[0]]] + ValuesInOrder(notes, keys[1..])
  }

  /**
   * create_note: the counter's value becomes the id of a note whose two
   * timestamps are both `now`, the counter advances by one, and the note is
   * added under its id; nothing else changes. In a valid store the id was not
   * a key before, so no note is overwritten.
   */
  function Create(s: Store, p: NoteCreate, now: int): (r: (Store, Note))
    requires ValidCreate(p)
    ensures r.1.id == s.nextId && r.0.nextId == s.nextId + 1
    ensures r.1.title == p.title && r.1.content == p.content
    ensures r.1.createdAt == now && r.1.updatedAt == now
    ensures r.0.notes == s.notes[r.1.id := r.1] && r.0.order == s.order + [r.1.id]
    ensures forall k :: k in s.notes && k != r.1.id ==> k in r.0.notes && r.0.notes[k] == s.notes[k]
    ensures Valid(s) ==> r.1.id !in s.notes && r.0.notes.Keys == s.notes.Keys + {r.1.id}
    ensures Valid(s) ==> forall k :: k in s.notes ==> k < r.1.id
  {
    var nid := s.nextId;
    var note := Note(nid, p.title, p.content, now, now);
    (Store(s.notes[nid := note], s.order + [nid], s.nextId + 1), note)
  }

  /** get_note: the note stored under `id`, or NotFound when there is none. */
  function Get(s: Store, id: int): (r: Result<Note>)
    ensures r.Ok? <==> id in s.notes
    ensures r.Ok? ==> r.value == s.notes[id]
    ensures r.Err? ==> r.error == NotFound
    ensures Valid(s) && r.Ok? ==> r.value.id == id && ValidNote(r.value)
  {
    if id in s.notes then Ok(s.notes[id]) else Err(NotFound)
  }

  /** The notes in dictionary iteration order: `_STORE.values()`. */
  function InsertionOrder(s: Store): (r: seq<Note>)
    requires Valid(s)
    ensures IdsAscending(r)
    ensures forall k :: k in s.notes ==> s.notes[k] in r
    ensures forall n :: n in r ==> n.id in s.notes && s.notes[n.id] == n
    ensures |r| == |s.notes|
  {
    assert forall i :: 0 <= i < |s.order| ==> s.order[i] in s.notes by {
      forall i | 0 <= i < |s.order| ensures s.order[i] in s.notes {
        assert s.order[i] in s.order;
      }
    }
    var r := ValuesInOrder(s.notes, s.order);
    assert forall k :: k in s.notes ==> s.notes[k] in r by {
      forall k | k in s.notes ensures s.notes[k] in r {
        var i :| 0 <= i < |s.order| && s.order[i] == k;
        assert r[i] == s.notes[k];
      }
    }
    OrderCoversKeys(s);
    r
  }

  /**
   * list_notes: every stored note exactly once, newest first; notes updated
   * at the same time appear in insertion order, which is ascending id.
   */
  function List(s: Store): (r: seq<Note>)
    requires Valid(s)
    ensures |r| == |s.notes|
    ensures forall k :: k in s.notes ==> s.notes[k] in r
    ensures forall n :: n in r ==> n.id in s.notes && s.notes[n.id] == n
    ensures NewestFirst(r)
    ensures Ordered(r)
  {
    var values := InsertionOrder(s);
    SortOrdered(values);
    assert forall n :: n in SortNewestFirst(values) <==> n in values by {
      forall n ensures n in SortNewestFirst(values) <==> n in values {
        assert n in SortNewestFirst(values) <==> n in multiset(SortNewestFirst(values));
        assert n in values <==> n in multiset(values);
      }
    }
    assert |SortNewestFirst(values)| == |multiset(values)| == |values|;
    SortNewestFirst(values)
  }

  /**
   * The listing is determined by its contract: any ordered sequence holding
   * exactly the stored notes is the one list_notes returns.
   */
  lemma ListDetermined(s: Store, r: seq<Note>)
    requires Valid(s) && Ordered(r)
    requires forall k :: k in s.notes ==> s.notes[k] in r
    requires forall n :: n in r ==> n.id in s.notes && s.notes[n.id] == n
    ensures r == List(s)
  {
    var l := List(s);
    forall x ensures x in r <==> x in l {
      if x in r {
        assert s.notes[x.id] in l;
      }
      if x in l {
        assert s.notes[x.id] in r;
      }
    }
    SameMembersSame(r, l);
  }

  /**
   * replace_note: NotFound, and nothing changes, when `id` is absent;
   * otherwise title and content come from the payload, `created_at` is kept,
   * `updated_at` becomes `now`, and only that entry changes.
   */
  function Replace(s: Store, id: int, p: NoteCreate, now: int): (r: (Store, Result<Note>))
    requires ValidCreate(p)
    ensures id !in s.notes ==> r == (s, Err(NotFound))
    ensures id in s.notes ==> r.1.Ok? && r.0 == s.(notes := s.notes[id := r.1.value])
    ensures id in s.notes ==>
      r.1.Ok? && r.1.value.id == id && r.1.value.title == p.title && r.1.value.content == p.content
      && r.1.value.createdAt == s.notes[id].createdAt && r.1.value.updatedAt == now
  {
    if id !in s.notes then (s, Err(NotFound))
    else
      var existing := s.notes[id];
      var updated := Note(id, p.title, p.content, existing.createdAt, now);
      (s.(notes := s.notes[id := updated]), Ok(updated))
  }

  /**
   * update_note: NotFound, and nothing changes, when `id` is absent;
   * otherwise each supplied field is taken from the payload and each absent
   * one kept, id and `created_at` are kept, `updated_at` becomes `now` even
   * when nothing is supplied, and only that entry changes.
   */
  function Update(s: Store, id: int, p: NoteUpdate, now: int): (r: (Store, Result<Note>))
    requires ValidUpdate(p)
    ensures id !in s.notes ==> r == (s, Err(NotFound))
    ensures id in s.notes ==> r.1.Ok? && r.0 == s.(notes := s.notes[id := r.1.value])
    ensures id in s.notes ==>
      r.1.Ok? && r.1.value.id == s.notes[id].id
      && r.1.value.createdAt == s.notes[id].createdAt && r.1.value.updatedAt == now
      && (p.title.Some? ==> r.1.value.title == p.title.value)
      && (p.title.None? ==> r.1.value.title == s.notes[id].title)
      && (p.content.Some? ==> r.1.value.content == p.content.value)
      && (p.content.None? ==> r.1.value.content == s.notes[id].content)
  {
    if id !in s.notes then (s, Err(NotFound))
    else
      var existing := s.notes[id];
      var newTitle := p.title.GetOr(existing.title);
      var newContent := p.content.GetOr(existing.content);
      var updated := Note(existing.id, newTitle, newContent, existing.createdAt, now);
      (s.(notes := s.notes[id := updated]), Ok(updated))
  }

  /**
   * delete_note: NotFound, and nothing changes, when `id` is absent;
   * otherwise exactly that key is removed and the counter is left alone.
   */
  function Delete(s: Store, id: int): (r: (Store, Result<()>))
    ensures id !in s.notes ==> r == (s, Err(NotFound))
    ensures id in s.notes ==> r.1 == Ok(())
    ensures id in s.notes ==> r.0.notes == s.notes - {id} && r.0.nextId == s.nextId
    ensures id in s.notes ==> forall k :: k in r.0.order <==> k in s.order && k != id
  {
    if id !in s.notes then (s, Err(NotFound))
    else (Store(s.notes - {id}, Without(s.order, id), s.nextId), Ok(()))
  }

  // ----- The invariant is kept by every operation -----

  lemma CreateValid(s: Store, p: NoteCreate, now: int)
    requires Valid(s) && ValidCreate(p)
    ensures Valid(Create(s, p, now).0)
  {
    var s' := Create(s, p, now).0;
    forall i | 0 <= i < |s.order| ensures s.order[i] < s.nextId {
      assert s.order[i] in s.order;
    }
    assert StrictlyIncreasing(s'.order);
  }

  lemma ReplaceValid(s: Store, id: int, p: NoteCreate, now: int)
    requires Valid(s) && ValidCreate(p)
    ensures Valid(Replace(s, id, p, now).0)
  {
  }

  lemma UpdateValid(s: Store, id: int, p: NoteUpdate, now: int)
    requires Valid(s) && ValidUpdate(p)
    ensures Valid(Update(s, id, p, now).0)
    ensures id in s.notes ==> Update(s, id, p, now).1.value.id == id
  {
  }

  lemma DeleteValid(s: Store, id: int)
    requires Valid(s)
    ensures Valid(Delete(s, id).0)
  {
  }

  // ----- Facts used above and by the lemmas over histories -----

  /** The insertion order has as many entries as the dictionary has keys. */
  lemma OrderCoversKeys(s: Store)
    requires Valid(s)
    ensures |s.order| == |s.notes|
  {
    var elems := set k | k in s.order;
    assert forall k :: k in elems <==> k in s.notes;
    assert elems == s.notes.Keys;
    DistinctCount(s.order);
  }

  lemma {:induction false} DistinctCount(s: seq<int>)
    requires StrictlyIncreasing(s)
    ensures |set k | k in s| == |s|
  {
    if s != [] {
      DistinctCount(s[1..]);
      assert (set k | k in s) == {s[0]} + (set k | k in s[1..]);
      assert s[0] !in (set k | k in s[1..]);
    }
  }

  // ----- Properties relating several operations -----

  /** A created note can be read back under its id, and list then includes it. */
  lemma CreateThenGet(s: Store, p: NoteCreate, now: int)
    requires Valid(s) && ValidCreate(p)
    ensures var (s', note) := Create(s, p, now);
      Get(s', note.id) == Ok(note) && Valid(s') && note in List(s')
  {
    CreateValid(s, p, now);
  }

  /** Once deleted, an id is not found, and the counter has already moved past it. */
  lemma DeleteThenGet(s: Store, id: int)
    requires Valid(s) && id in s.notes
    ensures Get(Delete(s, id).0, id) == Err(NotFound)
    ensures id < Delete(s, id).0.nextId
  {
  }

  /** A patch that supplies both fields has the same effect as a full replace. */
  lemma FullPatchIsReplace(s: Store, id: int, p: NoteCreate, now: int)
    requires Valid(s) && ValidCreate(p)
    ensures Update(s, id, NoteUpdate(Some(p.title), Some(p.content)), now) == Replace(s, id, p, now)
  {
  }

  /** A patch that supplies no field only refreshes `updated_at`. */
  lemma EmptyPatchTouches(s: Store, id: int, now: int)
    requires Valid(s) && id in s.notes
    ensures Update(s, id, NoChanges, now).1 == Ok(s.notes[id].(updatedAt := now))
  {
  }
}
