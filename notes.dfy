/** The notes hook: a per-submission cache of notes, the loading flags, the
    browser's `localStorage` and the one debounce timer that delays saving.
    The clock (`new Date().toISOString()`) is the parameter `now`; a
    throwing `localStorage` call is the flag `readFails` or `writeFails`. */
module Notes {
  import opened Options

  /** A cached note. `notes` is always set; the other fields are missing
      when the entry was made by a text edit or a save of a note that was
      never loaded (the spread of an undefined entry). */
  datatype Note = Note(
    id: Option<string>,
    submissionId: Option<string>,
    email: Option<string>,
    name: Option<string>,
    notes: string,
    createdDate: Option<string>,
    updatedDate: Option<string>)

  /** The `localStorage` key (and note id) of a submission's note. */
  function NoteKey(submissionId: string): (k: string)
    ensures |k| == |submissionId| + 5 && k[..5] == "note_" && k[5..] == submissionId
  {
    "note_" + submissionId
  }

  /** Different submissions store their notes under different keys. */
  lemma NoteKeyInjective(a: string, b: string)
    requires NoteKey(a) == NoteKey(b)
    ensures a == b
  {
    assert a == NoteKey(a)[5..];
  }

  /** `localStorage.getItem(key) || ''`: the stored text of a submission's note. */
  function StoredText(store: map<string, string>, submissionId: string): (t: string)
    ensures NoteKey(submissionId) in store ==> t == store[NoteKey(submissionId)]
    ensures NoteKey(submissionId) !in store ==> t == ""
  {
    Lookup(store, NoteKey(submissionId)).GetOr("")
  }

  /** Writing one submission's note leaves every other submission's stored text as it was. */
  lemma StoredTextWrite(store: map<string, string>, a: string, text: string, b: string)
    ensures StoredText(store[NoteKey(a) := text], b) == (if a == b then text else StoredText(store, b))
  {
    if a != b && NoteKey(a) == NoteKey(b) {
      NoteKeyInjective(a, b);
    }
  }

  /** The note `loadNoteForSubmission` builds. */
  function LoadedNote(store: map<string, string>, submissionId: string, email: string, name: string, now: string): (n: Note)
    ensures n.id == Some(NoteKey(submissionId)) && n.submissionId == Some(submissionId)
    ensures n.email == Some(email) && n.name == Some(name)
    ensures n.notes == StoredText(store, submissionId)
    ensures n.createdDate == Some(now) && n.updatedDate == Some(now)
  {
    Note(Some(NoteKey(submissionId)), Some(submissionId), Some(email), Some(name),
         StoredText(store, submissionId), Some(now), Some(now))
  }

  /** `{ ...prev, notes: text }`: the text replaced, every other field of the
      previous entry kept, and only the text when there was none. */
  function WithText(prev: Option<Note>, text: string): (n: Note)
    ensures n.notes == text
    ensures prev.Some? ==> n == prev.value.(notes := text)
    ensures prev.None? ==> n == Note(None, None, None, None, text, None, None)
  {
    match prev
    case Some(p) => p.(notes := text)
    case None => Note(None, None, None, None, text, None, None)
  }

  /** The arguments of the save the debounce timer is waiting to run. */
  datatype SaveRequest = SaveRequest(submissionId: string, text: string)

  /** The cache after a save: the saved entry keeps every field of the
      previous one but takes the new text and update time. */
  function ApplySave(notes: map<string, Note>, r: SaveRequest, now: string): (m: map<string, Note>)
    ensures m.Keys == notes.Keys + {r.submissionId}
    ensures m[r.submissionId].notes == r.text && m[r.submissionId].updatedDate == Some(now)
    ensures forall k :: k in notes && k != r.submissionId ==> m[k] == notes[k]
    ensures r.submissionId in notes ==>
      m[r.submissionId] == notes[r.submissionId].(notes := r.text, updatedDate := Some(now))
    ensures r.submissionId !in notes ==>
      m[r.submissionId] == Note(None, None, None, None, r.text, None, Some(now))
  {
    notes[r.submissionId := WithText(Lookup(notes, r.submissionId), r.text).(updatedDate := Some(now))]
  }

  class NotesCache {
    var notes: map<string, Note>
    var loadingNotes: map<string, bool>
    var store: map<string, string>
    var pending: Option<SaveRequest>

    /** Between calls no note is left marked as loading. */
    predicate Valid()
      reads this
    {
      forall k :: k in loadingNotes ==> !loadingNotes[k]
    }

    /** A fresh hook over the browser's existing storage. */
    constructor(storage: map<string, string>)
      ensures Valid()
      ensures notes == map[] && loadingNotes == map[] && store == storage && pending == None
    {
      notes := map[];
      loadingNotes := map[];
      store := storage;
      pending := None;
    }

    /** `loadNoteForSubmission`: a cached (or loading) submission returns its
        cached note; otherwise the note is built from storage and cached, or
        `null` is returned when storage throws; either way its loading flag
        ends up cleared. */
    method LoadNoteForSubmission(submissionId: string, email: string, name: string, now: string, readFails: bool)
      returns (r: Option<Note>)
      requires Valid()
      modifies this
      ensures Valid()
      ensures store == old(store) && pending == old(pending)
      ensures old(submissionId in notes || Lookup(loadingNotes, submissionId) == Some(true)) ==>
        r == Lookup(old(notes), submissionId) && notes == old(notes) && loadingNotes == old(loadingNotes)
      ensures old(submissionId !in notes && Lookup(loadingNotes, submissionId) != Some(true)) ==>
        loadingNotes == old(loadingNotes)[submissionId := false]
        && (readFails ==> r == None && notes == old(notes))
        && (!readFails ==> r == Some(LoadedNote(store, submissionId, email, name, now))
                           && notes == old(notes)[submissionId := r.value])
    {
      if submissionId in notes || Lookup(loadingNotes, submissionId) == Some(true) {
        return Lookup(notes, submissionId);
      }
      loadingNotes := loadingNotes[submissionId := true];
      if readFails {
        r := None;
      } else {
        var note := LoadedNote(store, submissionId, email, name, now);
        notes := notes[submissionId := note];
        r := Some(note);
      }
      loadingNotes := loadingNotes[submissionId := false];
    }

    /** `saveNote`: the debounced call. Any save still waiting is cancelled
        (`clearTimeout`) and this one waits instead; nothing is written yet.
        The e-mail and name arguments are not used by the save. */
    method SaveNote(submissionId: string, email: string, name: string, text: string)
      modifies this
      ensures pending == Some(SaveRequest(submissionId, text))
      ensures notes == old(notes) && loadingNotes == old(loadingNotes) && store == old(store)
    {
      pending := Some(SaveRequest(submissionId, text));
    }

    /** The debounce timer firing, 1000 ms after the last `saveNote`: the waiting
        text is written to storage and into the cached note with a new update
        time; when the write throws, nothing changes. */
    method TimerFires(now: string, writeFails: bool)
      requires pending.Some?
      modifies this
      ensures pending == None && loadingNotes == old(loadingNotes)
      ensures writeFails ==> store == old(store) && notes == old(notes)
      ensures !writeFails ==>
        store == old(store)[NoteKey(old(pending).value.submissionId) := old(pending).value.text]
        && notes == ApplySave(old(notes), old(pending).value, now)
    {
      var req := pending.value;
      pending := None;
      if !writeFails {
        store := store[NoteKey(req.submissionId) := req.text];
        notes := ApplySave(notes, req, now);
      }
    }

    /** `updateNoteText`: the cached text changes at once, nothing is stored. */
    method UpdateNoteText(submissionId: string, text: string)
      modifies this
      ensures notes == old(notes)[submissionId := WithText(Lookup(old(notes), submissionId), text)]
      ensures loadingNotes == old(loadingNotes) && store == old(store) && pending == old(pending)
    {
      notes := notes[submissionId := WithText(Lookup(notes, submissionId), text)];
    }
  }

  /** One timer serves every submission: a second save within the delay
      cancels the first, even for another submission, whose text is then
      never stored. */
  method SaveTwoThenFire(c: NotesCache, a: string, textA: string, b: string, textB: string, now: string)
    requires a != b
    modifies c
    ensures StoredText(c.store, a) == StoredText(old(c.store), a)
    ensures StoredText(c.store, b) == textB
  {
    c.SaveNote(a, "", "", textA);
    c.SaveNote(b, "", "", textB);
    c.TimerFires(now, false);
    StoredTextWrite(old(c.store), b, textB, a);
    StoredTextWrite(old(c.store), b, textB, b);
  }

  /** A note saved and then loaded by a fresh hook over the same storage reads back the saved text. */
  method SaveThenReload(c: NotesCache, id: string, email: string, name: string, text: string, now: string)
      returns (loaded: Option<Note>)
    modifies c
    ensures loaded.Some? && loaded.value.notes == text
  {
    c.SaveNote(id, email, name, text);
    c.TimerFires(now, false);
    var reloaded := new NotesCache(c.store);
    loaded := reloaded.LoadNoteForSubmission(id, email, name, now, false);
    StoredTextWrite(old(c.store), id, text, id);
  }
}
