/** The dashboard's client-side state: the list of summaries and the selected one,
    and how a create, a delete and an update change them. */
module Dashboard {
  import opened Outcomes
  import opened SummaryStore
  import opened Extraction
  import opened Completion
  import opened SummaryController

  /** The list shown and the summary open in the detail view (`null` as `None`). */
  datatype View = View(summaries: seq<Record>, selected: Option<Record>)

  /** `summaries.filter(summary => summary._id !== id)`. */
  function WithoutId(rs: seq<Record>, id: Id): (r: seq<Record>)
    ensures forall x :: x in r <==> x in rs && x.id != id
    ensures |r| <= |rs|
  {
    if rs == [] then []
    else if rs[0].id == id then WithoutId(rs[1..], id)
    else [rs[0]] + WithoutId(rs[1..], id)
  }

  /** `summaries.map(summary => summary._id === updated._id ? updated : summary)`. */
  function ReplaceById(rs: seq<Record>, updated: Record): (r: seq<Record>)
    ensures |r| == |rs|
    ensures forall i :: 0 <= i < |rs| && rs[i].id == updated.id ==> r[i] == updated
    ensures forall i :: 0 <= i < |rs| && rs[i].id != updated.id ==> r[i] == rs[i]
  {
    if rs == [] then []
    else [if rs[0].id == updated.id then updated else rs[0]] + ReplaceById(rs[1..], updated)
  }

  /** Filtering keeps a newest-first list newest first. */
  lemma {:induction false} WithoutIdKeepsOrder(rs: seq<Record>, id: Id)
    requires NewestFirst(rs)
    ensures NewestFirst(WithoutId(rs, id))
  {
    if rs != [] {
      var tail := rs[1..];
      assert NewestFirst(tail) by {
        forall i, j | 0 <= i < j < |tail| ensures Newer(tail[i], tail[j]) {
          assert tail[i] == rs[i + 1] && tail[j] == rs[j + 1];
        }
      }
      WithoutIdKeepsOrder(tail, id);
      if rs[0].id != id {
        var r := WithoutId(tail, id);
        forall x | x in r ensures Newer(rs[0], x) {
          var j :| 0 <= j < |tail| && tail[j] == x;
          assert rs[j + 1] == x;
        }
        PrependNewestFirst(rs[0], r);
      }
    }
  }

  /** A record newer than every entry of a newest-first list may go in front of it. */
  lemma PrependNewestFirst(rec: Record, rs: seq<Record>)
    requires NewestFirst(rs)
    requires forall x :: x in rs ==> Newer(rec, x)
    ensures NewestFirst([rec] + rs)
  {
    var out := [rec] + rs;
    forall i, j | 0 <= i < j < |out| ensures Newer(out[i], out[j]) {
      assert out[j] == rs[j - 1];
      if i == 0 {
        assert rs[j - 1] in rs;
      } else {
        assert out[i] == rs[i - 1];
      }
    }
  }

  /** Filtering keeps the relative order: it distributes over concatenation. */
  lemma {:induction false} WithoutIdAppend(a: seq<Record>, b: seq<Record>, id: Id)
    ensures WithoutId(a + b, id) == WithoutId(a, id) + WithoutId(b, id)
  {
    if a == [] {
      assert a + b == b;
    } else {
      var ab := a + b;
      assert ab[0] == a[0] && ab[1..] == a[1..] + b;
      WithoutIdAppend(a[1..], b, id);
      if a[0].id == id {
        calc {
          WithoutId(ab, id);
          WithoutId(a[1..] + b, id);
          WithoutId(a[1..], id) + WithoutId(b, id);
        }
      } else {
        calc {
          WithoutId(ab, id);
          [a[0]] + WithoutId(a[1..] + b, id);
          [a[0]] + (WithoutId(a[1..], id) + WithoutId(b, id));
          ([a[0]] + WithoutId(a[1..], id)) + WithoutId(b, id);
        }
      }
    }
  }

  /** `handleSummarySuccess`: the new summary goes first and becomes the selection. */
  function OnSummaryCreated(v: View, created: Record): (w: View)
    ensures |w.summaries| == |v.summaries| + 1
    ensures w.summaries[0] == created && w.summaries[1..] == v.summaries
    ensures w.selected == Some(created)
  {
    View([created] + v.summaries, Some(created))
  }

  /** `handleDeleteSummary` once the request settled: on success the id leaves the list
      and the selection is cleared if it was that summary; on failure nothing changes. */
  function OnSummaryDeleted(v: View, id: Id, succeeded: bool): (w: View)
    ensures !succeeded ==> w == v
    ensures succeeded ==> forall x :: x in w.summaries <==> x in v.summaries && x.id != id
    ensures succeeded ==>
              (w.selected == None <==> v.selected == None || v.selected.value.id == id)
    ensures w.selected.Some? ==> w.selected == v.selected
  {
    if !succeeded then v
    else
      var selected := if v.selected.Some? && v.selected.value.id == id then None else v.selected;
      View(WithoutId(v.summaries, id), selected)
  }

  /** `handleUpdateSummary`: entries with the updated id are replaced in place; the
      selection is replaced only if it has that id. */
  function OnSummaryUpdated(v: View, updated: Record): (w: View)
    ensures |w.summaries| == |v.summaries|
    ensures forall i :: 0 <= i < |v.summaries| ==>
              w.summaries[i] == (if v.summaries[i].id == updated.id then updated else v.summaries[i])
    ensures v.selected.Some? && v.selected.value.id == updated.id ==> w.selected == Some(updated)
    ensures !(v.selected.Some? && v.selected.value.id == updated.id) ==> w.selected == v.selected
  {
    var selected := if v.selected.Some? && v.selected.value.id == updated.id then Some(updated) else v.selected;
    View(ReplaceById(v.summaries, updated), selected)
  }

  /** Replacing records by one with the same id and creation time keeps the order. */
  lemma ReplaceKeepsOrder(rs: seq<Record>, updated: Record)
    requires NewestFirst(rs)
    requires forall x :: x in rs && x.id == updated.id ==> x.doc.createdAt == updated.doc.createdAt
    ensures NewestFirst(ReplaceById(rs, updated))
  {
    var out := ReplaceById(rs, updated);
    forall i, j | 0 <= i < j < |out| ensures Newer(out[i], out[j]) {
      assert Newer(rs[i], rs[j]);
      assert rs[i] in rs && rs[j] in rs;
    }
  }

  // ----- The client list agrees with what a fresh listing from the server returns -----

  /** Prepending a record newer than every stored one gives the listing of the store
      with that record inserted. */
  lemma PrependMatchesInsert(s: Store, id: Id, d: Doc)
    requires id !in s
    requires forall k :: k in s ==> s[k].createdAt < d.createdAt
    ensures [Record(id, d)] + ListNewestFirst(s) == ListNewestFirst(s[id := d])
  {
    var rec, prev := Record(id, d), ListNewestFirst(s);
    var s' := s[id := d];
    PrependNewestFirst(rec, prev);
    forall x ensures x in [rec] + prev <==> Holds(s', x) {
      if x in [rec] + prev && x != rec {
        assert x in prev;
      }
    }
    IsListing(s', [rec] + prev);
  }

  /** Filtering an id out of a newest-first list of exactly a store's records gives a
      newest-first list of exactly the records left once that id is removed. */
  lemma FilterTracksStore(s: Store, rs: seq<Record>, id: Id)
    requires NewestFirst(rs)
    requires forall x :: x in rs <==> Holds(s, x)
    ensures NewestFirst(WithoutId(rs, id))
    ensures forall x :: x in WithoutId(rs, id) <==> Holds(s - {id}, x)
  {
    WithoutIdKeepsOrder(rs, id);
  }

  /** Filtering an id out of the listing gives the listing of the store without it. */
  lemma FilterMatchesRemove(s: Store, id: Id)
    ensures WithoutId(ListNewestFirst(s), id) == ListNewestFirst(s - {id})
  {
    FilterTracksStore(s, ListNewestFirst(s), id);
    IsListing(s - {id}, WithoutId(ListNewestFirst(s), id));
  }

  /** Replacing a record by one with the same id and creation time gives the listing of
      the store with that entry overwritten. */
  lemma ReplaceMatchesOverwrite(s: Store, id: Id, d: Doc)
    requires id in s && d.createdAt == s[id].createdAt
    ensures ReplaceById(ListNewestFirst(s), Record(id, d)) == ListNewestFirst(s[id := d])
  {
    var prev := ListNewestFirst(s);
    ReplaceKeepsOrder(prev, Record(id, d));
    ReplaceTracksStore(s, prev, id, d);
    IsListing(s[id := d], ReplaceById(prev, Record(id, d)));
  }

  /** Replacing a store's record in a list of exactly its records gives a list of exactly
      the records of the store with that entry overwritten. */
  lemma ReplaceTracksStore(s: Store, rs: seq<Record>, id: Id, d: Doc)
    requires id in s
    requires forall x :: x in rs <==> Holds(s, x)
    ensures forall x :: x in ReplaceById(rs, Record(id, d)) <==> Holds(s[id := d], x)
  {
    var out := ReplaceById(rs, Record(id, d));
    forall x ensures x in out <==> Holds(s[id := d], x) {
      if x in out {
        var i :| 0 <= i < |out| && out[i] == x;
        assert rs[i] in rs;
      }
      if Holds(s[id := d], x) {
        var y := if x.id == id then Record(id, s[id]) else x;
        assert Holds(s, y);
        var i :| 0 <= i < |rs| && rs[i] == y;
        assert out[i] == x;
      }
    }
  }

  /** After a successful create with a clock that has moved past every stored record,
      prepending the returned record gives exactly the server's new listing. */
  lemma CreateKeepsListInSync(s: Store, v: View, req: CreateRequest, fetched: FetchOutcome,
                              reply: PostOutcome, newId: Id, now: Time)
    requires newId !in s
    requires v.summaries == ListNewestFirst(s)
    requires forall k :: k in s ==> s[k].createdAt < now
    ensures var c := SummarizeFromUrl(s, req, fetched, reply, newId, now);
      c.response.status == 200 ==>
        OnSummaryCreated(v, c.response.body.record).summaries == ListNewestFirst(c.store)
  {
    var c := SummarizeFromUrl(s, req, fetched, reply, newId, now);
    if c.response.status == 200 {
      CreateSuccess(s, req, fetched, reply, newId, now);
      var rec := c.response.body.record;
      assert c.store == s[newId := rec.doc];
      PrependMatchesInsert(s, newId, rec.doc);
    }
  }

  /** After a delete, filtering the client list gives exactly the server's new listing;
      when the server refused, the unchanged list still matches. */
  lemma DeleteKeepsListInSync(s: Store, v: View, id: Id)
    requires v.summaries == ListNewestFirst(s)
    ensures var h := DeleteSummary(s, ValidId(id));
      OnSummaryDeleted(v, id, h.response.status == 200).summaries == ListNewestFirst(h.store)
  {
    var h := DeleteSummary(s, ValidId(id));
    if h.response.status == 200 {
      assert h.store == s - {id};
      FilterMatchesRemove(s, id);
    }
  }

  /** After a successful update, replacing the record in the client list gives exactly
      the server's new listing: the update keeps `createdAt`, so the order is unchanged. */
  lemma UpdateKeepsListInSync(s: Store, v: View, id: Id, text: string, now: Time)
    requires v.summaries == ListNewestFirst(s)
    ensures var h := UpdateSummary(s, ValidId(id), text, now);
      h.response.status == 200 ==>
        OnSummaryUpdated(v, h.response.body.record).summaries == ListNewestFirst(h.store)
  {
    var h := UpdateSummary(s, ValidId(id), text, now);
    if h.response.status == 200 {
      var d := h.store[id];
      assert h.response.body.record == Record(id, d) && h.store == s[id := d];
      ReplaceMatchesOverwrite(s, id, d);
    }
  }
}
