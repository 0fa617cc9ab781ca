/** Properties of the data-access layer that relate several operations or
    hold for every input: listings before and after a mutation, the meaning of
    the update arguments, and search behaviour. */
module ServiceProperties {
  import opened Results
  import opened Models
  import opened TextMatch
  import opened DatabaseService

  /** After an insert under a new key, the listing is the old listing with
      the new record at the end. */
  lemma ListingAfterInsert(rows: map<int, Entry>, order: seq<int>, id: int, e: Entry)
    requires forall i | 0 <= i < |order| :: order[i] in rows
    requires id !in rows
    ensures ListEntries(rows[id := e], order + [id]) == ListEntries(rows, order) + [e]
  {
  }

  /** After a delete, the listing is the old listing without the deleted
      record, the others in their old order. */
  lemma {:induction false} ListingAfterDelete(rows: map<int, Entry>, order: seq<int>, id: int)
    requires KeyedById(rows)
    requires forall i | 0 <= i < |order| :: order[i] in rows
    ensures ListEntries(rows - {id}, OtherIds(order, id)) == OtherEntries(ListEntries(rows, order), id)
  {
    if order != [] {
      var x, tail := order[0], order[1..];
      ListingAfterDelete(rows, tail, id);
      ListEntriesCons(rows, order);
      OtherIdsCons(order, id);
      OtherEntriesCons(ListEntries(rows, order), id);
      var kept := OtherIds(tail, id);
      if x != id {
        ListEntriesCons(rows - {id}, [x] + kept);
        assert ([x] + kept)[1..] == kept;
      }
    }
  }

  lemma ListEntriesCons(rows: map<int, Entry>, order: seq<int>)
    requires order != []
    requires forall i | 0 <= i < |order| :: order[i] in rows
    ensures ListEntries(rows, order) == [rows[order[0]]] + ListEntries(rows, order[1..])
  {
  }

  lemma OtherIdsCons(order: seq<int>, id: int)
    requires order != []
    ensures OtherIds(order, id) == if order[0] != id then [order[0]] + OtherIds(order[1..], id) else OtherIds(order[1..], id)
  {
  }

  lemma OtherEntriesCons(entries: seq<Entry>, id: int)
    requires entries != []
    ensures OtherEntries(entries, id) == if entries[0].id != id then [entries[0]] + OtherEntries(entries[1..], id) else OtherEntries(entries[1..], id)
  {
  }

  /** Update with no optional arguments changes nothing. */
  lemma UpdateWithoutArgumentsIsNoOp(e: Entry)
    ensures Updated(e, None, None, None, None, None) == e
  {
  }

  /** Falsy arguments (empty text, zero coordinates) are ignored, so a column
      cannot be cleared through update. */
  lemma UpdateWithFalsyArgumentsIsNoOp(e: Entry)
    ensures Updated(e, Some(""), Some(""), Some(0.0), Some(0.0), Some("")) == e
  {
  }

  /** `update(id, title=t)` with a non-empty `t` changes the title and nothing else. */
  lemma UpdateTitleOnly(e: Entry, t: string)
    requires t != ""
    ensures Updated(e, Some(t), None, None, None, None) == e.(title := t)
  {
  }

  /** Repeating the same update changes nothing further. */
  lemma UpdateIsIdempotent(e: Entry, title: Option<string>, description: Option<string>,
                           latitude: Option<real>, longitude: Option<real>, imageUrl: Option<string>)
    ensures var once := Updated(e, title, description, latitude, longitude, imageUrl);
            Updated(once, title, description, latitude, longitude, imageUrl) == once
  {
  }

  /** The empty keyword (`%%`) matches every title, so search returns every
      record, in order. */
  lemma {:induction false} SearchWithEmptyKeywordReturnsAll(entries: seq<Entry>)
    ensures FilterByTitle(entries, "") == entries
  {
    if entries != [] {
      assert OccursIgnoringCaseAt("", entries[0].title, 0);
      SearchWithEmptyKeywordReturnsAll(entries[1..]);
      assert entries == [entries[0]] + entries[1..];
    }
  }

  lemma LowerCharIsIdempotent(c: char)
    ensures LowerChar(LowerChar(c)) == LowerChar(c)
  {
  }

  /** Lower-casing the keyword first does not change which titles match. */
  lemma KeywordCaseIsIgnored(title: string, keyword: string)
    ensures ContainsIgnoringCase(title, Lower(keyword)) == ContainsIgnoringCase(title, keyword)
  {
    var lk := Lower(keyword);
    forall i ensures OccursIgnoringCaseAt(lk, title, i) <==> OccursIgnoringCaseAt(keyword, title, i) {
      forall j | 0 <= j < |keyword| {
        LowerCharIsIdempotent(keyword[j]);
      }
    }
  }

  /** The example of a search for "graf" over three titles: the first and
      third match, the second does not. */
  lemma SearchExample(a: Entry, b: Entry, c: Entry, keyword: string)
    requires a.title == "Graffiti Wall" && b.title == "Street Art" && c.title == "GRAFitti2"
    requires keyword == "graf"
    ensures FilterByTitle([a, b, c], keyword) == [a, c]
  {
    GrafPrefixMatches(a.title, keyword);
    GrafPrefixMatches(c.title, keyword);
    StreetArtDoesNotMatch(b.title, keyword);
    FilterByTitleCons([a, b, c], keyword);
    FilterByTitleCons([b, c], keyword);
    FilterByTitleCons([c], keyword);
    assert [a, b, c][1..] == [b, c] && [b, c][1..] == [c] && [c][1..] == [];
  }

  lemma GrafPrefixMatches(title: string, keyword: string)
    requires title == "Graffiti Wall" || title == "GRAFitti2"
    requires keyword == "graf"
    ensures ContainsIgnoringCase(title, keyword)
  {
  }

  lemma StreetArtDoesNotMatch(title: string, keyword: string)
    requires title == "Street Art" && keyword == "graf"
    ensures !ContainsIgnoringCase(title, keyword)
  {
  }

  lemma FilterByTitleCons(entries: seq<Entry>, keyword: string)
    requires entries != []
    ensures FilterByTitle(entries, keyword) ==
            if ContainsIgnoringCase(entries[0].title, keyword)
            then [entries[0]] + FilterByTitle(entries[1..], keyword)
            else FilterByTitle(entries[1..], keyword)
  {
  }

  /** Create one entry, list, delete it, list again. */
  method MuralScenario(now: Timestamp)
  {
    var table := new GraffitiTable();
    var added := table.Add(Some("Mural A"), Some("desc"), Some(40.7), Some(-74.0),
                           Some("/img/a.png"), Some("alice"), now, None);
    assert added.Ok?;
    var id := added.value.entryId;
    var listed := table.GetAll(None);
    assert listed.Ok? && |listed.value| == 1;
    assert listed.value[0] == Entry(id, "Mural A", Some("desc"), 40.7, -74.0, "/img/a.png", now, "alice");
    var deleted := table.Delete(id, None);
    assert deleted == Ok(DeletedMessage);
    listed := table.GetAll(None);
    assert listed == Ok([]);
  }
}
