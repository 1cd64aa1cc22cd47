/**
 The in-memory note store of the notes server (notes_server/index.js): the
 seeded collection, the id generator, and the four handlers that read or
 change the collection by id. Each handler is a pure function from the
 current collection to an `Outcome`: the response it sends and the
 collection it leaves behind.
 */
module Notes {

  datatype Option<+T> = None | Some(value: T)

  /** One stored record. */
  datatype Note = Note(id: int, content: string, important: bool)

  /** The collection, in insertion order. */
  type Store = seq<Note>

  /** The `:id` path segment after numeric conversion. `None` stands for a
      segment that converts to NaN or to a non-integer, which no note matches. */
  type PathId = Option<int>

  /** The JSON body of a create or replace request; an absent field is `None`. */
  datatype Payload = Payload(content: Option<string>, important: Option<bool>)

  /** What a handler answers: 200 with a note, 204 with no body, 400 with an
      error payload, or 404 with or without an error payload. */
  datatype Response =
    | Ok(note: Note)
    | NoContent
    | BadRequest(error: string)
    | NotFound(reason: Option<string>)

  /** The response of one handler together with the collection after it. */
  datatype Outcome = Outcome(response: Response, notes: Store)

  const ContentMissing: string := "content missing"
  const NoteNotFound: string := "note not found"

  /** The HTTP status each kind of response is sent with. */
  function StatusCode(r: Response): (code: int) {
    match r
    case Ok(_) => 200
    case NoContent => 204
    case BadRequest(_) => 400
    case NotFound(_) => 404
  }

  /** `note.id === id`: a path id that did not convert matches nothing, and
      a converted one matches exactly the note carrying that number. */
  function Matches(n: Note, id: PathId): (b: bool)
    ensures id == None ==> !b
    ensures id.Some? ==> (b <==> id.value == n.id)
  {
    id == Some(n.id)
  }

  ghost predicate HasId(s: Store, id: PathId) {
    exists i :: 0 <= i < |s| && Matches(s[i], id)
  }

  /** The invariant of the collection: no two notes share an id. */
  ghost predicate UniqueIds(s: Store) {
    forall i, j :: 0 <= i < j < |s| ==> s[i].id != s[j].id
  }

  /** The three notes the process starts with. */
  function Seed(): (s: Store)
    ensures |s| == 3 && UniqueIds(s)
    ensures forall i :: 0 <= i < |s| ==> s[i].id == i + 1
  {
    [ Note(1, "HTML is easy", true),
      Note(2, "Browser can execute only JavaScript", false),
      Note(3, "GET and POSt are the most imporant methods of HTTP protocol", true) ]
  }

  /** `Math.max` over the ids of a non-empty collection. */
  function MaxId(s: Store): (m: int)
    requires |s| > 0
    ensures forall i :: 0 <= i < |s| ==> s[i].id <= m
    ensures exists i :: 0 <= i < |s| && s[i].id == m
  {
    if |s| == 1 then s[0].id
    else
      var rest := MaxId(s[1..]);
      if s[0].id >= rest then s[0].id
      else
        assert exists i :: 1 <= i < |s| && s[i].id == rest by {
          var j :| 0 <= j < |s[1..]| && s[1..][j].id == rest;
          assert s[j + 1].id == rest;
        }
        rest
  }

  /** The id given to a created note: one more than the largest id present,
      or 1 when the collection is empty. */
  function GenerateId(s: Store): (r: int)
    ensures |s| == 0 ==> r == 1
    ensures forall i :: 0 <= i < |s| ==> s[i].id < r
    ensures |s| > 0 ==> exists i :: 0 <= i < |s| && s[i].id == r - 1
  {
    (if |s| > 0 then MaxId(s) else 0) + 1
  }

  /** `findIndex`: the position of the first note with the id, or -1. */
  function FindIndex(s: Store, id: PathId): (k: int)
    ensures -1 <= k < |s|
    ensures k == -1 <==> !HasId(s, id)
    ensures k >= 0 ==> Matches(s[k], id) && forall j :: 0 <= j < k ==> !Matches(s[j], id)
  {
    if |s| == 0 then -1
    else if Matches(s[0], id) then 0
    else
      var k := FindIndex(s[1..], id);
      if k == -1 then
        assert !HasId(s, id) by {
          forall i | 0 <= i < |s| ensures !Matches(s[i], id) {
            if i > 0 { assert s[i] == s[1..][i - 1]; }
          }
        }
        -1
      else k + 1
  }

  /** `filter(note => note.id !== id)`: the notes without that id, in order. */
  function Remove(s: Store, id: PathId): (r: Store)
    ensures |r| <= |s|
    ensures forall n :: n in r <==> n in s && !Matches(n, id)
    ensures !HasId(s, id) ==> r == s
  {
    if |s| == 0 then []
    else
      var rest := Remove(s[1..], id);
      assert !HasId(s, id) ==> !HasId(s[1..], id) by {
        if HasId(s[1..], id) {
          var j :| 0 <= j < |s[1..]| && Matches(s[1..][j], id);
          assert Matches(s[j + 1], id);
        }
      }
      assert s == [s[0]] + s[1..];
      if Matches(s[0], id) then rest else [s[0]] + rest
  }

  /** `!body.content`: absent or empty content fails validation; any
      non-empty string passes. */
  function ContentIsMissing(p: Payload): (b: bool)
    ensures !b <==> p.content.Some? && |p.content.value| > 0
  {
    p.content == None || p.content == Some("")
  }

  /** `body.important || false`: a given flag is kept as it is, an absent
      one becomes false. */
  function ImportantOrFalse(p: Payload): (b: bool)
    ensures p.important.Some? ==> b == p.important.value
    ensures p.important == None ==> !b
  {
    p.important == Some(true)
  }

  /** GET /api/notes/:id */
  function GetNote(s: Store, id: PathId): (r: Outcome)
    ensures r.notes == s
    ensures r.response.Ok? <==> HasId(s, id)
    ensures r.response.Ok? ==>
              exists k :: 0 <= k < |s| && s[k] == r.response.note && Matches(s[k], id)
                          && forall j :: 0 <= j < k ==> !Matches(s[j], id)
    ensures !r.response.Ok? ==> r.response == NotFound(None)
  {
    var k := FindIndex(s, id);
    if k == -1 then Outcome(NotFound(None), s) else Outcome(Ok(s[k]), s)
  }

  /** DELETE /api/notes/:id */
  function DeleteNote(s: Store, id: PathId): (r: Outcome)
    ensures r.response == NoContent
    ensures !HasId(r.notes, id)
    ensures forall n :: n in r.notes <==> n in s && !Matches(n, id)
    ensures !HasId(s, id) ==> r.notes == s
  {
    Outcome(NoContent, Remove(s, id))
  }

  /** POST /api/notes */
  function CreateNote(s: Store, p: Payload): (r: Outcome)
    ensures ContentIsMissing(p) ==> r == Outcome(BadRequest(ContentMissing), s)
    ensures !ContentIsMissing(p) ==>
              && r.response.Ok?
              && r.notes == s + [r.response.note]
              && r.response.note.content == p.content.value
              && r.response.note.important == (p.important == Some(true))
              && r.response.note.id == GenerateId(s)
              && (forall i :: 0 <= i < |s| ==> s[i].id < r.response.note.id)
              && (|s| == 0 ==> r.response.note.id == 1)
              && (|s| > 0 ==> exists i :: 0 <= i < |s| && s[i].id + 1 == r.response.note.id)
  {
    if ContentIsMissing(p) then Outcome(BadRequest(ContentMissing), s)
    else
      var n := Note(GenerateId(s), p.content.value, ImportantOrFalse(p));
      Outcome(Ok(n), s + [n])
  }

  /** PUT /api/notes/:id: content is validated before the lookup. */
  function ReplaceNote(s: Store, id: PathId, p: Payload): (r: Outcome)
    ensures ContentIsMissing(p) ==> r == Outcome(BadRequest(ContentMissing), s)
    ensures !ContentIsMissing(p) && !HasId(s, id) ==> r == Outcome(NotFound(Some(NoteNotFound)), s)
    ensures !ContentIsMissing(p) && HasId(s, id) ==>
              exists k :: 0 <= k < |s| && Matches(s[k], id)
                          && (forall j :: 0 <= j < k ==> !Matches(s[j], id))
                          && r.response == Ok(Note(s[k].id, p.content.value, p.important == Some(true)))
                          && r.notes == s[k := r.response.note]
  {
    if ContentIsMissing(p) then Outcome(BadRequest(ContentMissing), s)
    else
      var k := FindIndex(s, id);
      if k == -1 then Outcome(NotFound(Some(NoteNotFound)), s)
      else
        var n := Note(id.value, p.content.value, ImportantOrFalse(p));
        Outcome(Ok(n), s[k := n])
  }
}
