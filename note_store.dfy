/** The note service's state and its read-only operations.

    The service keeps one record per note in a directory of files named
    `<id>.json`, and a token file mapping arbitrary labels to accepted tokens.
    Here the directory is a map from note id to record and the token file is
    an optional map (None when the file does not exist). Every operation first
    authenticates the caller's token; an authentication failure is reported
    before anything about the store is looked at.
 */
module NoteStore {

  datatype Option<T> = None | Some(value: T)

  type NoteId = string

  /** A timestamp as the service writes it (an ISO-8601 string read from the
      clock); its format and its ordering are not modelled. */
  type Timestamp = string

  /** The record stored in `notes/<id>.json`. */
  datatype Note = Note(id: NoteId, text: string, createdAt: Timestamp, updatedAt: Timestamp)

  /** Response of GET /notes/{id}. */
  datatype NoteContent = NoteContent(id: NoteId, text: string)

  /** Response of GET /notes/info/{id}. */
  datatype NoteInfo = NoteInfo(createdAt: Timestamp, updatedAt: Timestamp)

  /** The token file `tokens.json`: None when it does not exist. */
  type TokenFile = Option<map<string, string>>

  /** What an endpoint answers: a value (HTTP 200), 401 with its detail
      message, or 404 ("Note not found"). */
  datatype Outcome<T> = Ok(value: T) | Unauthorized(detail: string) | NotFound

  const MissingTokenFileDetail := "Unauthorized"
  const InvalidTokenDetail := "Invalid token"
  const DefaultLabel := "user"
  const DefaultToken := "test_token"
  const NoteFileSuffix := ".json"

  // ---------------------------------------------------------------------------
  // Authentication

  /** The caller's token is accepted: the token file exists and some label in
      it maps to this token, whatever the label is. */
  ghost predicate Authorized(tokens: TokenFile, token: string) {
    tokens.Some? && exists owner :: owner in tokens.value && tokens.value[owner] == token
  }

  /** `authenticate`: 401 "Unauthorized" without a token file, 401 "Invalid
      token" when the token is not among the file's values, otherwise success. */
  function Authenticate(tokens: TokenFile, token: string): (r: Outcome<bool>)
    ensures r.Ok? <==> Authorized(tokens, token)
    ensures r.Ok? ==> r.value
    ensures !r.Ok? ==> r.Unauthorized?
    ensures tokens.None? ==> r == Unauthorized(MissingTokenFileDetail)
    ensures tokens.Some? && !Authorized(tokens, token) ==> r == Unauthorized(InvalidTokenDetail)
  {
    if tokens.None? then Unauthorized(MissingTokenFileDetail)
    else if token !in tokens.value.Values then Unauthorized(InvalidTokenDetail)
    else Ok(true)
  }

  /** The startup block: a missing token file is created holding the single
      pair "user" -> "test_token"; an existing one is left as it is. */
  function InitTokenFile(existing: TokenFile): (r: TokenFile)
    ensures r.Some?
    ensures existing.Some? ==> r == existing
    ensures existing.None? ==> |r.value| == 1 && Authenticate(r, DefaultToken).Ok?
    ensures existing.None? ==> forall token :: Authorized(r, token) <==> token == DefaultToken
  {
    if existing.None? then Some(map[DefaultLabel := DefaultToken]) else existing
  }

  // ---------------------------------------------------------------------------
  // The note store

  /** Note ids are the text of a version-4 UUID: 36 characters, lower-case
      hex digits with dashes at 8, 13, 18 and 23, the version digit `4` at 14
      and a variant digit among `8`, `9`, `a`, `b` at 19. */
  predicate IsUuidText(s: string) {
    |s| == 36 && forall i :: 0 <= i < |s| ==> UuidCharAt(i, s[i])
  }

  predicate UuidCharAt(i: int, c: char) {
    if i == 8 || i == 13 || i == 18 || i == 23 then c == '-'
    else if i == 14 then c == '4'
    else if i == 19 then c in "89ab"
    else '0' <= c <= '9' || 'a' <= c <= 'f'
  }

  /** The store's invariant: the id inside each record equals the key it is
      stored under, and every key is UUID text (so it contains no `.`). */
  ghost predicate StoreValid(notes: map<NoteId, Note>) {
    forall k :: k in notes ==> notes[k].id == k && IsUuidText(k)
  }

  lemma UuidTextHasNoDot(s: string)
    requires IsUuidText(s)
    ensures '.' !in s
  {
  }

  /** `get_note`: authenticate, then 404 for a missing id, otherwise the id
      and text held in the record. */
  function GetNote(tokens: TokenFile, notes: map<NoteId, Note>, id: NoteId, token: string): (r: Outcome<NoteContent>)
    ensures r.Unauthorized? <==> !Authorized(tokens, token)
    ensures r.Unauthorized? ==> Authenticate(tokens, token) == Unauthorized(r.detail)
    ensures r.NotFound? <==> Authorized(tokens, token) && id !in notes
    ensures r.Ok? ==> id in notes && r.value.text == notes[id].text && r.value.id == notes[id].id
    ensures r.Ok? && StoreValid(notes) ==> r.value.id == id
  {
    var auth := Authenticate(tokens, token);
    if auth.Unauthorized? then Unauthorized(auth.detail)
    else if id !in notes then NotFound
    else Ok(NoteContent(notes[id].id, notes[id].text))
  }

  /** `get_note_info`: authenticate, then 404 for a missing id, otherwise the
      record's two timestamps. */
  function GetNoteInfo(tokens: TokenFile, notes: map<NoteId, Note>, id: NoteId, token: string): (r: Outcome<NoteInfo>)
    ensures r.Unauthorized? <==> !Authorized(tokens, token)
    ensures r.Unauthorized? ==> Authenticate(tokens, token) == Unauthorized(r.detail)
    ensures r.NotFound? <==> Authorized(tokens, token) && id !in notes
    ensures r.Ok? ==> id in notes && r.value.createdAt == notes[id].createdAt && r.value.updatedAt == notes[id].updatedAt
  {
    var auth := Authenticate(tokens, token);
    if auth.Unauthorized? then Unauthorized(auth.detail)
    else if id !in notes then NotFound
    else Ok(NoteInfo(notes[id].createdAt, notes[id].updatedAt))
  }

  // ---------------------------------------------------------------------------
  // File names and the listing

  /** The name of the file a note is stored in. */
  function FileName(id: NoteId): string {
    id + NoteFileSuffix
  }

  /** `name.split(".")[0]`: the longest prefix of `name` without a `.`; it
      is all of `name`, or it stops just before the first `.`. */
  function Stem(name: string): (r: string)
    ensures r <= name
    ensures '.' !in r
    ensures |r| == |name| || name[|r|] == '.'
  {
    if name == [] || name[0] == '.' then []
    else [name[0]] + Stem(name[1..])
  }

  /** The stem of a note's file name gives back its id when the id has no `.`. */
  lemma {:induction false} StemOfFileName(id: NoteId)
    requires '.' !in id
    ensures Stem(FileName(id)) == id
  {
    if id != [] {
      assert FileName(id)[0] == id[0];
      assert FileName(id)[1..] == FileName(id[1..]);
      StemOfFileName(id[1..]);
      assert [id[0]] + id[1..] == id;
    }
  }

  /** `list_notes`: authenticate, then map the position of each directory
      entry to the entry's name up to its first `.`. */
  function ListNotes(tokens: TokenFile, files: seq<string>, token: string): (r: Outcome<map<nat, NoteId>>)
    ensures r.Unauthorized? <==> !Authorized(tokens, token)
    ensures r.Unauthorized? ==> Authenticate(tokens, token) == Unauthorized(r.detail)
    ensures !r.NotFound?
    ensures r.Ok? ==> forall i: nat :: i in r.value <==> i < |files|
    ensures r.Ok? ==> forall i :: 0 <= i < |files| ==> r.value[i] == Stem(files[i])
  {
    var auth := Authenticate(tokens, token);
    if auth.Unauthorized? then Unauthorized(auth.detail)
    else Ok(Enumerate(NoteIdsOf(files)))
  }

  /** The list comprehension: each directory entry's name up to its first `.`. */
  function NoteIdsOf(files: seq<string>): seq<NoteId> {
    seq(|files|, i requires 0 <= i < |files| => Stem(files[i]))
  }

  /** The dict comprehension over `enumerate`: position to element. */
  function Enumerate(ids: seq<NoteId>): map<nat, NoteId> {
    map i: nat | i < |ids| :: ids[i]
  }

  /** `Enumerate` has the positions 0 .. n-1 as keys, each mapped to the
      element at that position, so its values are the sequence's elements. */
  lemma EnumerateContents(ids: seq<NoteId>)
    ensures forall i: nat :: i in Enumerate(ids) <==> i < |ids|
    ensures forall i :: 0 <= i < |ids| ==> Enumerate(ids)[i] == ids[i]
    ensures Enumerate(ids).Values == set x | x in ids
  {
  }

  ghost predicate NoDuplicates<T>(s: seq<T>) {
    forall i, j :: 0 <= i < j < |s| ==> s[i] != s[j]
  }

  /** `ids` is one order in which the directory can be listed: every stored
      id exactly once. */
  ghost predicate EnumeratesStore(ids: seq<NoteId>, notes: map<NoteId, Note>) {
    NoDuplicates(ids) && forall k :: k in ids <==> k in notes
  }

  /** The directory entries for the ids, in the same order. */
  function FileNames(ids: seq<NoteId>): seq<string> {
    seq(|ids|, i requires 0 <= i < |ids| => FileName(ids[i]))
  }

  /** Taking stems undoes `FileNames` when no id contains a `.`. */
  lemma NoteIdsOfFileNames(ids: seq<NoteId>)
    requires forall i :: 0 <= i < |ids| ==> '.' !in ids[i]
    ensures NoteIdsOf(FileNames(ids)) == ids
  {
    forall i | 0 <= i < |ids| ensures NoteIdsOf(FileNames(ids))[i] == ids[i] {
      StemOfFileName(ids[i]);
    }
  }

  lemma {:induction false} NoDuplicatesCardinality<T>(s: seq<T>)
    requires NoDuplicates(s)
    ensures |set x | x in s| == |s|
  {
    if s != [] {
      assert NoDuplicates(s[1..]) by {
        forall i, j | 0 <= i < j < |s[1..]| ensures s[1..][i] != s[1..][j] {
          assert s[1..][i] == s[i + 1] && s[1..][j] == s[j + 1];
        }
      }
      NoDuplicatesCardinality(s[1..]);
      assert s[0] !in s[1..] by {
        forall j | 0 <= j < |s[1..]| ensures s[1..][j] != s[0] {
          assert s[1..][j] == s[j + 1];
        }
      }
      assert (set x | x in s) == {s[0]} + (set x | x in s[1..]);
    }
  }

  /** An enumeration of the store has one entry per note. */
  lemma EnumerationLength(ids: seq<NoteId>, notes: map<NoteId, Note>)
    requires EnumeratesStore(ids, notes)
    ensures |ids| == |notes|
  {
    NoDuplicatesCardinality(ids);
    assert (set x | x in ids) == notes.Keys;
  }

  /** Listing a valid store: the keys are the positions 0 .. n-1 with n the
      number of notes, the value at each position is the id listed there, and
      the listed values are exactly the store's ids. */
  lemma ListNotesOfStore(tokens: TokenFile, notes: map<NoteId, Note>, ids: seq<NoteId>, token: string)
    requires StoreValid(notes)
    requires EnumeratesStore(ids, notes)
    requires Authorized(tokens, token)
    ensures ListNotes(tokens, FileNames(ids), token).Ok?
    ensures var listed := ListNotes(tokens, FileNames(ids), token).value;
      && (forall i: nat :: i in listed <==> i < |notes|)
      && (forall i :: 0 <= i < |ids| ==> listed[i] == ids[i])
      && listed.Values == notes.Keys
  {
    EnumerationLength(ids, notes);
    forall i | 0 <= i < |ids| ensures '.' !in ids[i] {
      assert ids[i] in notes;
      UuidTextHasNoDot(ids[i]);
    }
    NoteIdsOfFileNames(ids);
    EnumerateContents(ids);
  }

  /** After a delete the removed id is no longer among the listed values,
      whatever order the remaining files are listed in. */
  lemma DeletedNoteNotListed(tokens: TokenFile, notes: map<NoteId, Note>, id: NoteId, ids: seq<NoteId>, token: string)
    requires StoreValid(notes)
    requires EnumeratesStore(ids, notes - {id})
    requires Authorized(tokens, token)
    ensures ListNotes(tokens, FileNames(ids), token).Ok?
    ensures id !in ListNotes(tokens, FileNames(ids), token).value.Values
  {
    ListNotesOfStore(tokens, notes - {id}, ids, token);
  }

  /** After a create the new id is among the listed values, whatever order
      the files are listed in. */
  lemma CreatedNoteListed(tokens: TokenFile, notes: map<NoteId, Note>, newId: NoteId, text: string,
                          createdAt: Timestamp, updatedAt: Timestamp, ids: seq<NoteId>, token: string)
    requires StoreValid(notes) && IsUuidText(newId)
    requires EnumeratesStore(ids, notes[newId := Note(newId, text, createdAt, updatedAt)])
    requires Authorized(tokens, token)
    ensures ListNotes(tokens, FileNames(ids), token).Ok?
    ensures newId in ListNotes(tokens, FileNames(ids), token).value.Values
  {
    ListNotesOfStore(tokens, notes[newId := Note(newId, text, createdAt, updatedAt)], ids, token);
  }
}
