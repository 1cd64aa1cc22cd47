/**
 The routes of the notes server that touch the collection, dispatched over one
 shared collection, and what holds of any sequence of such requests handled
 one after another from the seeded collection.
 */
module NoteServer {
  import opened Notes
  import opened NoteProperties

  /** A request to one of the four routes with an `:id` or a body. */
  datatype Request =
    | Get(id: PathId)
    | Delete(id: PathId)
    | Create(body: Payload)
    | Replace(id: PathId, body: Payload)

  /** Route one request against the current collection. */
  function Handle(s: Store, req: Request): (r: Outcome)
    ensures req.Get? ==> r.notes == s
    ensures req.Delete? ==> StatusCode(r.response) == 204
    ensures StatusCode(r.response) != 200 ==> req.Delete? || r.notes == s
    ensures StatusCode(r.response) == 200 ==> req.Get? || req.Create? || req.Replace?
  {
    match req
    case Get(id) => GetNote(s, id)
    case Delete(id) => DeleteNote(s, id)
    case Create(p) => CreateNote(s, p)
    case Replace(id, p) => ReplaceNote(s, id, p)
  }

  /** Every route keeps the ids of the collection unique. */
  lemma HandlePreservesUniqueIds(s: Store, req: Request)
    ensures UniqueIds(s) ==> UniqueIds(Handle(s, req).notes)
  {
    if UniqueIds(s) {
      match req
      case Get(id) =>
      case Delete(id) => DeletePreservesUniqueIds(s, id);
      case Create(p) => CreatePreservesUniqueIds(s, p);
      case Replace(id, p) => ReplacePreservesUniqueIds(s, id, p);
    }
  }

  /** The collection after handling the requests in order. */
  function Run(s: Store, reqs: seq<Request>): (r: Store)
    ensures UniqueIds(s) ==> UniqueIds(r)
    ensures (forall i :: 0 <= i < |reqs| ==> reqs[i].Get?) ==> r == s
    decreases |reqs|
  {
    if |reqs| == 0 then s
    else
      HandlePreservesUniqueIds(s, reqs[0]);
      Run(Handle(s, reqs[0]).notes, reqs[1..])
  }

  /** Whatever requests arrive, the collection never holds two notes with one id. */
  lemma UniqueIdsAlways(reqs: seq<Request>)
    ensures UniqueIds(Run(Seed(), reqs))
  {
  }

  /** Example requests against the seeded collection and their exact answers. */
  lemma SeedScenarios()
    ensures GetNote(Seed(), Some(2)).response
            == Ok(Note(2, "Browser can execute only JavaScript", false))
    ensures GetNote(DeleteNote(Seed(), Some(1)).notes, Some(1)).response == NotFound(None)
    ensures CreateNote(Seed(), Payload(Some("test"), None)).response
            == Ok(Note(4, "test", false))
    ensures CreateNote(Seed(), Payload(None, None)) == Outcome(BadRequest(ContentMissing), Seed())
    ensures ReplaceNote(Seed(), Some(3), Payload(Some("updated"), Some(true))).response
            == Ok(Note(3, "updated", true))
    ensures ReplaceNote(Seed(), Some(9999), Payload(Some("x"), None))
            == Outcome(NotFound(Some(NoteNotFound)), Seed())
    ensures GetNote(Seed(), Some(42)).response == NotFound(None)
  {
    var s := Seed();
    assert Matches(s[1], Some(2));
    assert !Matches(s[0], Some(2));
    assert MaxId(s) == 3;
    assert Matches(s[2], Some(3));
  }

  /** On the seed, deleting note 3 and creating again hands out id 3 a second time. */
  lemma IdReusedAfterDeletingMax()
    ensures var afterDelete := DeleteNote(Seed(), Some(3)).notes;
            CreateNote(afterDelete, Payload(Some("again"), None)).response.note.id == 3
  {
  }
}
