# Notes server store, modelled in Dafny

The notes server keeps one ordered, in-memory collection of notes
(`{id, content, important}`), seeded with ids 1 to 3, and answers four
requests by id against it: read one note, delete notes, create a note, and
replace a note. This project models that store as a value (`seq<Note>`) and
each request handler as a pure function from the current collection to an
`Outcome`: the response (200 with a note, 204, 400 with an error, or 404 with
or without an error) and the collection left behind.

- `notes.dfy`, module `Notes`: the data model, the seed, `generateId`
  (`MaxId`, `GenerateId`), the array primitives the handlers use (`FindIndex`
  for `findIndex`/`find`, `Remove` for `filter`) and the four handlers.
- `note_properties.dfy`, module `NoteProperties`: the uniqueness invariant
  across every handler, delete as an order-preserving filter, idempotent
  delete, delete undoing create, read-after-write for create, replace and
  delete, the id a create hands out once the largest id is gone, and the
  failure paths leaving the collection unchanged.
- `note_server.dfy`, module `NoteServer`: requests dispatched to the handlers,
  a run of any number of requests from the seed, and example requests
  against the seeded collection.

Modelling choices:

- The `:id` path segment is a `PathId = Option<int>`: `Some(n)` for a segment
  that converts to the integer `n`, `None` for one that converts to NaN or to
  a non-integer. `None` matches no note, as `note.id === NaN` never holds.
- A request body is a `Payload` with `content: Option<string>` and
  `important: Option<bool>`. `!body.content` is "absent or the empty
  string"; `body.important || false` is true only for an explicit `true`.
- The 404 of a read carries no body (`NotFound(None)`); the 404 of a replace
  carries `{error: "note not found"}` (`NotFound(Some(NoteNotFound))`).

Ids are the largest present id plus one, so deleting the note with the
largest id and creating again hands out that id a second time whenever the
next-largest id is one below it. `NoteProperties.CreateAfterDeletingMax`
states exactly when this happens for every collection, and
`NoteServer.IdReusedAfterDeletingMax` shows it on the seed: delete id 3,
create, and the new note gets id 3. Uniqueness among the notes present at any
one time still holds (`NoteServer.UniqueIdsAlways`).

## Model

| member | source | states |
|---|---|---|
| Notes.Seed | notes_server/index.js:22-38 | the process starts with three notes whose ids are 1, 2, 3 in that order, so ids are unique from the start |
| Notes.Matches | notes_server/index.js:57 | a path id that did not convert matches no note; a converted one matches exactly the notes carrying that number (the same test is used at lines 68 and 103) |
| Notes.ContentIsMissing | notes_server/index.js:76 | validation passes exactly when content is present and a non-empty string (the same test guards replace at line 97) |
| Notes.ImportantOrFalse | notes_server/index.js:84 | a given `important` flag is kept as it is and an absent one becomes false (the same default is used by replace at line 114) |
| Notes.MaxId | notes_server/index.js:41-43 | the maximum of the ids of a non-empty collection is at least every id and is the id of some note |
| Notes.GenerateId | notes_server/index.js:40-45 | the generated id is 1 for an empty collection, is above every id present, and otherwise is exactly one more than an id present |
| Notes.FindIndex | notes_server/index.js:103-105 | the result is -1 exactly when no note has the id; otherwise it is the position of the first note with the id |
| Notes.Remove | notes_server/index.js:68 | the result holds exactly the notes whose id differs, is no longer, and is the collection itself when no note has the id |
| Notes.GetNote | notes_server/index.js:55-64 | a read never changes the collection; it succeeds exactly when some note has the id, returning the first such note, and otherwise answers 404 with no body |
| Notes.DeleteNote | notes_server/index.js:66-71 | a delete always answers 204; afterwards no note has the id, every other note is kept, and an absent id changes nothing |
| Notes.CreateNote | notes_server/index.js:73-91 | absent or empty content answers 400 "content missing" and changes nothing; otherwise exactly one note is appended after the unchanged old notes, with the given content, `important` false unless given true, and the generated id: one more than an existing id and above every existing id (1 on an empty collection) |
| Notes.ReplaceNote | notes_server/index.js:93-120 | content is checked before the lookup (400 even for an absent id); valid content with an absent id answers 404 "note not found"; both leave the collection unchanged; otherwise the first note with the id is overwritten in place by a note with that id, the new content and `important` defaulted to false, and every other position is kept |
| NoteProperties.RemoveKeepsOrder | notes_server/index.js:68 | delete keeps exactly the positions whose note has a different id, in their original relative order |
| NoteProperties.RemoveAppend | notes_server/index.js:68 | deleting from a concatenation deletes from each part separately |
| NoteProperties.DeleteUndoesCreate | notes_server/index.js:66-91 | deleting the id of a just-created note answers 204 and gives back exactly the collection from before the create |
| NoteProperties.CreateAfterDeletingMax | notes_server/index.js:40-91 | after deleting the largest id `m`, a create gives an id no larger than `m` if any note is left and 1 if none is, and gives `m` again exactly when a note with id `m - 1` is left or nothing is left and `m` is 1 |
| NoteProperties.NextIdBelow | notes_server/index.js:40-45 | for a collection whose ids are all below `m`, the generated id is at most `m` (1 when empty) and equals `m` exactly when `m - 1` is present or the collection is empty and `m` is 1 |
| NoteProperties.DeletePreservesUniqueIds | notes_server/index.js:66-71 | deleting keeps the ids of the collection pairwise distinct |
| NoteProperties.DeleteIdempotent | notes_server/index.js:66-71 | deleting an id a second time answers 204 again and leaves the collection the first delete left |
| NoteProperties.GetAfterDelete | notes_server/index.js:55-71 | after deleting an id, reading that id answers 404 |
| NoteProperties.CreatePreservesUniqueIds | notes_server/index.js:82-88 | creating keeps the ids of the collection pairwise distinct |
| NoteProperties.GetAfterCreate | notes_server/index.js:55-91 | reading the id of a just-created note returns exactly the note the create answered with |
| NoteProperties.ReplaceKeepsIds | notes_server/index.js:103-117 | a replace, whatever its outcome, keeps the length and the id at every position |
| NoteProperties.ReplacePreservesUniqueIds | notes_server/index.js:111-117 | replacing keeps the ids of the collection pairwise distinct |
| NoteProperties.GetAfterReplace | notes_server/index.js:93-120 | after a successful replace, reading that id returns exactly the replacement note |
| NoteProperties.ErrorsLeaveStoreUnchanged | notes_server/index.js:73-109 | a create or replace that does not succeed leaves the collection as it was, and missing content makes replace answer 400 whatever the id |
| NoteServer.Handle | notes_server/index.js:55-120 | a read leaves the collection alone, a delete always answers 204, and any non-200 answer other than a delete's leaves the collection unchanged |
| NoteServer.HandlePreservesUniqueIds | notes_server/index.js:55-120 | each of the four routes keeps ids pairwise distinct |
| NoteServer.Run | notes_server/index.js:22-120 | handling any sequence of requests keeps ids pairwise distinct, and a sequence of reads changes nothing |
| NoteServer.UniqueIdsAlways | notes_server/index.js:22-120 | starting from the seed, after any sequence of requests no two notes share an id |
| NoteServer.SeedScenarios | notes_server/index.js:22-120 | example requests on the seed: reading id 2 returns the second note, reading a deleted id or id 42 answers 404, creating "test" yields id 4 with `important` false, an empty body answers 400, replacing id 3 yields the new note, replacing id 9999 answers 404 "note not found" |
| NoteServer.IdReusedAfterDeletingMax | notes_server/index.js:40-91 | deleting the note with the largest id (3) and then creating gives the new note that same id 3 |

## Left out

- Express setup, the JSON body parser, the request logger, CORS, static files,
  `app.listen` and the port: framework and I/O plumbing with no store logic.
- The root greeting (lines 47-49), the list-all route (lines 51-53) and the
  unknown-endpoint fallback (lines 13-15, 122): none of them changes the
  collection, so they cannot affect the uniqueness invariant; `Request` has
  no constructor for them.
- `Number(request.params.id)`: the conversion of the path string is not
  modelled; the model starts from its result, `Some(n)` or `None`.
- JavaScript truthiness of non-string `content` and non-boolean `important`
  values: the body is modelled as an optional string and an optional boolean.
- JSON serialisation of responses and the exact HTTP framing.
- Notes.GenerateId: ids are unbounded integers, so the loss of precision of
  JavaScript numbers above 2^53 and the argument-count limit of
  `Math.max(...ids)` on very large collections are not modelled.
- Concurrent requests: every handler runs to completion before the next one,
  as on a single event loop, so the stale-read duplicate-id race cannot arise
  in the model.
