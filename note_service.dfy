/** The note service's endpoints that change state.

    A `Service` holds the note directory and the token file as two fields.
    Its constructor is process start-up (the token file is created if it is
    missing), and create, update and delete each authenticate before they
    touch the store. The read-only endpoints are the functions of `NoteStore`
    applied to the current fields.
 */
module NoteService {
  import opened NoteStore

  const UpdatedMessage := "Note updated successfully"
  const DeletedMessage := "Note deleted successfully"

  class Service {
    var notes: map<NoteId, Note>
    var tokens: TokenFile

    ghost predicate Valid()
      reads this
    {
      StoreValid(notes)
    }

    /** Start-up: the note directory is kept as found (it was written by this
        service) and a missing token file is created with the default pair. */
    constructor (existingNotes: map<NoteId, Note>, existingTokens: TokenFile)
      requires StoreValid(existingNotes)
      ensures Valid()
      ensures notes == existingNotes
      ensures tokens == InitTokenFile(existingTokens)
      ensures existingTokens.Some? ==> tokens == existingTokens
      ensures existingTokens.None? ==> Authenticate(tokens, DefaultToken).Ok?
    {
      notes := existingNotes;
      tokens := InitTokenFile(existingTokens);
    }

    /** `create_note`. `newId` is the freshly generated UUID and `createdAt`,
        `updatedAt` are the two clock readings taken for the record. */
    method CreateNote(text: string, token: string, newId: NoteId, createdAt: Timestamp, updatedAt: Timestamp)
      returns (r: Outcome<NoteId>)
      requires Valid()
      requires IsUuidText(newId) && newId !in notes
      modifies this`notes
      ensures Valid()
      ensures r.Unauthorized? <==> !Authorized(tokens, token)
      ensures r.Unauthorized? ==> Authenticate(tokens, token) == Unauthorized(r.detail) && notes == old(notes)
      ensures !r.Unauthorized? ==> r == Ok(newId)
      ensures r.Ok? ==> notes == old(notes)[newId := Note(newId, text, createdAt, updatedAt)]
      ensures r.Ok? ==> newId !in old(notes) && notes.Keys == old(notes).Keys + {newId}
      ensures r.Ok? ==> GetNote(tokens, notes, r.value, token) == Ok(NoteContent(r.value, text))
      ensures r.Ok? ==> GetNoteInfo(tokens, notes, r.value, token) == Ok(NoteInfo(createdAt, updatedAt))
    {
      var auth := Authenticate(tokens, token);
      if auth.Unauthorized? {
        return Unauthorized(auth.detail);
      }
      var record := Note(newId, text, createdAt, updatedAt);
      notes := notes[newId := record];
      r := Ok(newId);
    }

    /** `update_note`: the stored record is loaded, its text and `updatedAt`
        are replaced, and it is written back. */
    method UpdateNote(id: NoteId, text: string, token: string, now: Timestamp) returns (r: Outcome<string>)
      requires Valid()
      modifies this`notes
      ensures Valid()
      ensures r.Unauthorized? <==> !Authorized(tokens, token)
      ensures r.Unauthorized? ==> Authenticate(tokens, token) == Unauthorized(r.detail)
      ensures r.NotFound? <==> Authorized(tokens, token) && id !in old(notes)
      ensures !r.Ok? ==> notes == old(notes)
      ensures r.Ok? ==> r.value == UpdatedMessage && id in old(notes)
      ensures r.Ok? ==> notes == old(notes)[id := old(notes)[id].(text := text, updatedAt := now)]
      ensures r.Ok? ==> notes[id].id == id && notes[id].createdAt == old(notes)[id].createdAt
      ensures r.Ok? ==> GetNote(tokens, notes, id, token) == Ok(NoteContent(id, text))
    {
      var auth := Authenticate(tokens, token);
      if auth.Unauthorized? {
        return Unauthorized(auth.detail);
      }
      if id !in notes {
        return NotFound;
      }
      var record := notes[id];
      record := record.(text := text);
      record := record.(updatedAt := now);
      notes := notes[id := record];
      r := Ok(UpdatedMessage);
    }

    /** `delete_note`: the record's file is removed if it exists. */
    method DeleteNote(id: NoteId, token: string) returns (r: Outcome<string>)
      requires Valid()
      modifies this`notes
      ensures Valid()
      ensures r.Unauthorized? <==> !Authorized(tokens, token)
      ensures r.Unauthorized? ==> Authenticate(tokens, token) == Unauthorized(r.detail)
      ensures r.NotFound? <==> Authorized(tokens, token) && id !in old(notes)
      ensures !r.Ok? ==> notes == old(notes)
      ensures r.Ok? ==> r.value == DeletedMessage && id in old(notes)
      ensures r.Ok? ==> notes == old(notes) - {id}
      ensures r.Ok? ==> GetNote(tokens, notes, id, token) == NotFound
    {
      var auth := Authenticate(tokens, token);
      if auth.Unauthorized? {
        return Unauthorized(auth.detail);
      }
      if id in notes {
        notes := notes - {id};
        return Ok(DeletedMessage);
      }
      r := NotFound;
    }
  }

  /** A client session on a fresh service: create "hello", read it back,
      update it to "world", read it again, delete it, and read it once more. */
  method HelloWorldSession(newId: NoteId, t0: Timestamp, t1: Timestamp, t2: Timestamp)
    returns (created: Outcome<NoteId>, first: Outcome<NoteContent>, updated: Outcome<string>,
             second: Outcome<NoteContent>, deleted: Outcome<string>, third: Outcome<NoteContent>)
    requires IsUuidText(newId)
    ensures created == Ok(newId)
    ensures first == Ok(NoteContent(newId, "hello"))
    ensures updated == Ok(UpdatedMessage)
    ensures second == Ok(NoteContent(newId, "world"))
    ensures deleted == Ok(DeletedMessage)
    ensures third == NotFound
  {
    var service := new Service(map[], None);
    created := service.CreateNote("hello", DefaultToken, newId, t0, t1);
    first := GetNote(service.tokens, service.notes, newId, DefaultToken);
    updated := service.UpdateNote(newId, "world", DefaultToken, t2);
    second := GetNote(service.tokens, service.notes, newId, DefaultToken);
    deleted := service.DeleteNote(newId, DefaultToken);
    third := GetNote(service.tokens, service.notes, newId, DefaultToken);
  }
}
