/**
 * Record shapes of the notes API and their field constraints
 * (notes_backend/src/api/models.py).
 *
 * Parsing and coercion of JSON payloads is the web framework's business; what
 * remains of it here is the predicate a payload satisfies once it has been
 * accepted, which the store operations take as a precondition.
 */
module Models {

  /** An optional payload field: `None` is an absent field (the default). */
  datatype Option<+T> = None | Some(value: T) {

    /** The supplied value, or `default` when the field is absent. */
    function GetOr(default: T): T {
      match this
      case Some(v) => v
      case None => default
    }
  }

  /** Upper bound (`max_length`) on the length of a title. */
  const MaxTitleLength: nat := 200

  /**
   * A stored note: the title and content of `NoteBase` plus the identifier
   * and two timestamps. Timestamps are readings of an abstract clock.
   */
  datatype Note = Note(id: int, title: string, content: string, createdAt: int, updatedAt: int)

  /** Payload of create and of full replace (`NoteCreate`, which adds nothing to `NoteBase`). */
  datatype NoteCreate = NoteCreate(title: string, content: string)

  /** Payload of partial update: both fields optional, absent by default. */
  datatype NoteUpdate = NoteUpdate(title: Option<string>, content: Option<string>)

  /** A patch that supplies no field (`NoteUpdate()` with both defaults). */
  const NoChanges: NoteUpdate := NoteUpdate(None, None)

  /** `min_length=1, max_length=200`; the bound is on the number of characters only. */
  predicate ValidTitle(t: string) {
    1 <= |t| <= MaxTitleLength
  }

  /** Content carries `min_length=0`, i.e. no constraint, so only the title is checked. */
  predicate ValidCreate(p: NoteCreate) {
    ValidTitle(p.title)
  }

  /** A title that is present must satisfy the same bounds; content is free. */
  predicate ValidUpdate(p: NoteUpdate) {
    p.title.Some? ==> ValidTitle(p.title.value)
  }

  /** A stored note inherits the `NoteBase` constraints. */
  predicate ValidNote(n: Note) {
    ValidTitle(n.title)
  }

  /**
   * Documents the payload constraints against the bounds written in models.py
   * (the literal 200 is `MaxTitleLength`): a create payload is accepted
   * exactly when its title has 1 to 200 characters, whatever its content (the
   * empty string included); a patch with an absent title always, and one with
   * a present title exactly when that title would be accepted by create.
   */
  lemma PayloadConstraints(title: string, content: string, c: Option<string>)
    ensures ValidCreate(NoteCreate(title, content)) <==> 1 <= |title| <= 200
    ensures ValidTitle(title) ==> ValidCreate(NoteCreate(title, ""))
    ensures ValidUpdate(NoteUpdate(None, c))
    ensures ValidUpdate(NoteUpdate(Some(title), c)) <==> ValidCreate(NoteCreate(title, content))
    ensures ValidUpdate(NoChanges)
  {
  }
}
