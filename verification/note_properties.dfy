/**
 Properties of the note store that relate several handler calls, or relate a
 handler to an independent statement of what it must do: the id-uniqueness
 invariant, deletion as an order-preserving filter, delete undoing create,
 read-after-write, and the id a create hands out after the largest id is deleted.
 */
module NoteProperties {
  import opened Notes

  /** `f` lists, in increasing order, the positions of `s` that `r` is made of:
      `r` is `s` with some entries dropped and the rest in their original order. */
  ghost predicate Embeds(f: seq<int>, r: Store, s: Store) {
    && |f| == |r|
    && (forall k :: 0 <= k < |f| ==> 0 <= f[k] < |s| && s[f[k]] == r[k])
    && (forall k, l :: 0 <= k < l < |f| ==> f[k] < f[l])
  }

  /** A collection taken from a collection with unique ids, keeping order, has unique ids. */
  lemma EmbedsKeepsUniqueIds(f: seq<int>, r: Store, s: Store)
    requires Embeds(f, r, s) && UniqueIds(s)
    ensures UniqueIds(r)
  {
    forall k, l | 0 <= k < l < |r| ensures r[k].id != r[l].id {
      assert f[k] < f[l];
    }
  }

  // ----- Delete -----

  /** Every position of `g` moved one place to the right. */
  ghost function Shift(g: seq<int>): (h: seq<int>)
    ensures |h| == |g| && forall k :: 0 <= k < |g| ==> h[k] == g[k] + 1
  {
    seq(|g|, k requires 0 <= k < |g| => g[k] + 1)
  }

  lemma ShiftMembership(g: seq<int>, i: int)
    ensures i in Shift(g) <==> i - 1 in g
  {
    var h := Shift(g);
    if i in h {
      var k :| 0 <= k < |h| && h[k] == i;
      assert g[k] == i - 1;
    }
    if i - 1 in g {
      var k :| 0 <= k < |g| && g[k] == i - 1;
      assert h[k] == i;
    }
  }

  /** Putting one note in front of the source shifts an embedding; putting it
      in front of both sides adds position 0. */
  lemma ShiftEmbeds(g: seq<int>, r: Store, t: Store, x: Note)
    requires Embeds(g, r, t)
    ensures Embeds(Shift(g), r, [x] + t)
    ensures Embeds([0] + Shift(g), [x] + r, [x] + t)
  {
    var s := [x] + t;
    forall k | 0 <= k < |g| ensures s[Shift(g)[k]] == r[k] {
      assert s[g[k] + 1] == t[g[k]];
    }
  }

  /** `f` holds exactly the positions of `s` whose note does not have the id. */
  ghost predicate KeepsExactly(f: seq<int>, s: Store, id: PathId) {
    forall i :: 0 <= i < |s| ==> (i in f <==> !Matches(s[i], id))
  }

  /** The positions kept from `s` in front of its tail `t`, given those kept from `t`. */
  ghost function ConsPositions(x: Note, g: seq<int>, id: PathId): seq<int> {
    if Matches(x, id) then Shift(g) else [0] + Shift(g)
  }

  lemma ConsKeepsExactly(s: Store, g: seq<int>, id: PathId)
    requires |s| > 0 && KeepsExactly(g, s[1..], id)
    requires Embeds(g, Remove(s[1..], id), s[1..])
    ensures KeepsExactly(ConsPositions(s[0], g, id), s, id)
  {
    var f := ConsPositions(s[0], g, id);
    forall i | 0 <= i < |s| ensures i in f <==> !Matches(s[i], id) {
      ShiftMembership(g, i);
      if i == 0 {
        assert -1 !in g;
      } else {
        assert s[i] == s[1..][i - 1];
        assert i in f <==> i in Shift(g);
      }
    }
  }

  lemma ConsEmbeds(s: Store, g: seq<int>, id: PathId)
    requires |s| > 0 && Embeds(g, Remove(s[1..], id), s[1..])
    ensures Embeds(ConsPositions(s[0], g, id), Remove(s, id), s)
  {
    assert s == [s[0]] + s[1..];
    ShiftEmbeds(g, Remove(s[1..], id), s[1..], s[0]);
  }

  /** Delete is a filter: it keeps exactly the notes whose id differs, each at
      its original relative position. */
  lemma {:induction false} RemoveKeepsOrder(s: Store, id: PathId)
    ensures exists f :: Embeds(f, Remove(s, id), s) && KeepsExactly(f, s, id)
  {
    if |s| == 0 {
      assert Embeds([], Remove(s, id), s) && KeepsExactly([], s, id);
    } else {
      RemoveKeepsOrder(s[1..], id);
      var g :| Embeds(g, Remove(s[1..], id), s[1..]) && KeepsExactly(g, s[1..], id);
      ConsEmbeds(s, g, id);
      ConsKeepsExactly(s, g, id);
      assert Embeds(ConsPositions(s[0], g, id), Remove(s, id), s);
    }
  }

  /** Deleting from the concatenation of two collections deletes from each part. */
  lemma {:induction false} RemoveAppend(a: Store, b: Store, id: PathId)
    ensures Remove(a + b, id) == Remove(a, id) + Remove(b, id)
  {
    if |a| == 0 {
      assert a + b == b;
    } else {
      assert (a + b)[1..] == a[1..] + b;
      RemoveAppend(a[1..], b, id);
    }
  }

  /** Deleting an id leaves only notes whose id differs, so the uniqueness
      invariant survives it. */
  lemma DeletePreservesUniqueIds(s: Store, id: PathId)
    requires UniqueIds(s)
    ensures UniqueIds(DeleteNote(s, id).notes)
  {
    RemoveKeepsOrder(s, id);
    var f :| Embeds(f, Remove(s, id), s) && KeepsExactly(f, s, id);
    EmbedsKeepsUniqueIds(f, Remove(s, id), s);
  }

  /** Deleting twice answers 204 both times and leaves what deleting once leaves. */
  lemma DeleteIdempotent(s: Store, id: PathId)
    ensures var once := DeleteNote(s, id);
            DeleteNote(once.notes, id) == once
  {
  }

  /** After a delete, reading the same id finds nothing. */
  lemma GetAfterDelete(s: Store, id: PathId)
    ensures GetNote(DeleteNote(s, id).notes, id).response == NotFound(None)
  {
  }

  // ----- Create -----

  /** A created note's id is above every id present, so the invariant survives. */
  lemma CreatePreservesUniqueIds(s: Store, p: Payload)
    requires UniqueIds(s)
    ensures UniqueIds(CreateNote(s, p).notes)
  {
  }

  /** Reading the id of a just-created note returns exactly that note. */
  lemma GetAfterCreate(s: Store, p: Payload)
    requires !ContentIsMissing(p)
    ensures var c := CreateNote(s, p);
            GetNote(c.notes, Some(c.response.note.id)) == Outcome(c.response, c.notes)
  {
    var c := CreateNote(s, p);
    var n := c.response.note;
    assert Matches(c.notes[|s|], Some(n.id));
    var g := GetNote(c.notes, Some(n.id));
    var k :| 0 <= k < |c.notes| && c.notes[k] == g.response.note && Matches(c.notes[k], Some(n.id))
             && forall j :: 0 <= j < k ==> !Matches(c.notes[j], Some(n.id));
  }

  /** Deleting the id of a just-created note gives back the collection as it
      was before the create: delete undoes create. */
  lemma DeleteUndoesCreate(s: Store, p: Payload)
    requires !ContentIsMissing(p)
    ensures var c := CreateNote(s, p);
            DeleteNote(c.notes, Some(c.response.note.id)) == Outcome(NoContent, s)
  {
    var c := CreateNote(s, p);
    var n := c.response.note;
    RemoveAppend(s, [n], Some(n.id));
    assert !HasId(s, Some(n.id));
    assert Remove([n], Some(n.id)) == [];
  }

  /** Ids are handed out again. After deleting the note(s) with the largest id
      `m`, a create gives an id no larger than `m` when any note is left, 1
      when none is, and `m` itself exactly when a note with id `m - 1` is left
      or nothing is left and `m` is 1. */
  lemma CreateAfterDeletingMax(s: Store, p: Payload)
    requires |s| > 0 && !ContentIsMissing(p)
    ensures var m := MaxId(s);
            var d := DeleteNote(s, Some(m)).notes;
            var n := CreateNote(d, p).response.note;
            && (|d| > 0 ==> n.id <= m)
            && (|d| == 0 ==> n.id == 1)
            && (n.id == m <==> HasId(d, Some(m - 1)) || (|d| == 0 && m == 1))
  {
    var m := MaxId(s);
    var d := DeleteNote(s, Some(m)).notes;
    forall i | 0 <= i < |d| ensures d[i].id < m {
      assert d[i] in d;
    }
    NextIdBelow(d, m);
  }

  /** The id generated for a collection whose ids all lie below `m`. */
  lemma NextIdBelow(d: Store, m: int)
    requires forall i :: 0 <= i < |d| ==> d[i].id < m
    ensures |d| > 0 ==> GenerateId(d) <= m
    ensures |d| == 0 ==> GenerateId(d) == 1
    ensures GenerateId(d) == m <==> HasId(d, Some(m - 1)) || (|d| == 0 && m == 1)
  {
  }

  // ----- Replace -----

  /** A replace that succeeds keeps the length and every id in place; the
      failing ones keep the collection itself. */
  lemma ReplaceKeepsIds(s: Store, id: PathId, p: Payload)
    ensures var r := ReplaceNote(s, id, p);
            |r.notes| == |s| && forall i :: 0 <= i < |s| ==> r.notes[i].id == s[i].id
  {
  }

  lemma ReplacePreservesUniqueIds(s: Store, id: PathId, p: Payload)
    requires UniqueIds(s)
    ensures UniqueIds(ReplaceNote(s, id, p).notes)
  {
    ReplaceKeepsIds(s, id, p);
  }

  /** Reading the id of a just-replaced note returns the replacement. */
  lemma GetAfterReplace(s: Store, id: PathId, p: Payload)
    requires !ContentIsMissing(p) && HasId(s, id)
    ensures var r := ReplaceNote(s, id, p);
            GetNote(r.notes, id) == Outcome(r.response, r.notes)
  {
    var r := ReplaceNote(s, id, p);
    var k :| 0 <= k < |s| && Matches(s[k], id)
             && (forall j :: 0 <= j < k ==> !Matches(s[j], id))
             && r.response == Ok(Note(s[k].id, p.content.value, p.important == Some(true)))
             && r.notes == s[k := r.response.note];
    assert Matches(r.notes[k], id);
    var g := GetNote(r.notes, id);
    var k' :| 0 <= k' < |r.notes| && r.notes[k'] == g.response.note && Matches(r.notes[k'], id)
              && forall j :: 0 <= j < k' ==> !Matches(r.notes[j], id);
  }

  // ----- Failed validation and failed lookup change nothing -----

  /** Every response other than a success leaves the collection as it was. */
  lemma ErrorsLeaveStoreUnchanged(s: Store, id: PathId, p: Payload)
    ensures !CreateNote(s, p).response.Ok? ==> CreateNote(s, p).notes == s
    ensures !ReplaceNote(s, id, p).response.Ok? ==> ReplaceNote(s, id, p).notes == s
    ensures ContentIsMissing(p) ==> ReplaceNote(s, id, p).response == BadRequest(ContentMissing)
  {
  }
}
