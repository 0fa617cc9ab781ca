/** The data-access layer over the `graffiti_entries` table: add, list,
    look up, update, delete and search by title. Every operation answers with a
    Result instead of raising; a mutation that faults is rolled back, so the
    table is left as it was.

    A fault raised by the store itself (connection loss, a failed commit, ...)
    is not decided by anything modelled here: each operation receives it as
    `storeError`, None when the store answers normally. */
module DatabaseService {
  import opened Results
  import opened Models
  import opened TextMatch

  const AddedMessage := "Graffiti entry added successfully!"
  const UpdatedMessage := "Entry updated successfully!"
  const DeletedMessage := "Entry deleted successfully!"
  const NotFoundMessage := "Entry not found."

  /** The success payload of an add: its message and the key the store assigned. */
  datatype Added = Added(message: string, entryId: int)

  /** Python truthiness of an optional text argument: None and "" are falsy. */
  predicate TruthyText(v: Option<string>) {
    v.Some? && v.value != ""
  }

  /** Python truthiness of an optional coordinate argument: None and 0 are falsy. */
  predicate TruthyCoordinate(v: Option<real>) {
    v.Some? && v.value != 0.0
  }

  ghost predicate Distinct<T>(s: seq<T>) {
    forall i, j | 0 <= i < j < |s| :: s[i] != s[j]
  }

  /** `xs` is `ys` with some elements left out and the rest kept in order. */
  ghost predicate IsSubsequence<T>(xs: seq<T>, ys: seq<T>)
    decreases |ys|
  {
    && |xs| <= |ys|
    && (xs == [] ||
        if xs[0] == ys[0] then IsSubsequence(xs[1..], ys[1..]) else IsSubsequence(xs, ys[1..]))
  }

  /** The elements of `s` that `keep` accepts, in their original order. */
  function Filter<T(!new)>(s: seq<T>, keep: T -> bool): (r: seq<T>)
    ensures forall x :: x in r <==> x in s && keep(x)
    ensures forall i | 0 <= i < |r| :: r[i] in s && keep(r[i])
    ensures IsSubsequence(r, s)
    ensures Distinct(s) ==> Distinct(r)
  {
    if s == [] then []
    else
      var rest := Filter(s[1..], keep);
      if keep(s[0]) then
        assert s[0] !in s[1..] ==> s[0] !in rest;
        [s[0]] + rest
      else
        assert rest != [] ==> rest[0] in rest;
        rest
  }

  /** The flat records, one per id of `order`, in that order. */
  function ListEntries(rows: map<int, Entry>, order: seq<int>): (r: seq<Entry>)
    requires forall i | 0 <= i < |order| :: order[i] in rows
    ensures |r| == |order|
    ensures forall i | 0 <= i < |order| :: r[i] == rows[order[i]]
  {
    seq(|order|, i requires 0 <= i < |order| => rows[order[i]])
  }

  /** The records whose title contains `keyword` ignoring case, in the order given. */
  function FilterByTitle(entries: seq<Entry>, keyword: string): (r: seq<Entry>)
    ensures forall e :: e in r <==> e in entries && ContainsIgnoringCase(e.title, keyword)
    ensures IsSubsequence(r, entries)
    ensures Distinct(entries) ==> Distinct(r)
  {
    Filter(entries, (e: Entry) => ContainsIgnoringCase(e.title, keyword))
  }

  /** A stored record after an update: each column whose argument is truthy
      takes the argument, every other column keeps its value; `id`,
      `created_at` and `created_by` are not arguments and never change. */
  function Updated(e: Entry, title: Option<string>, description: Option<string>,
                   latitude: Option<real>, longitude: Option<real>, imageUrl: Option<string>): (r: Entry)
    ensures r.id == e.id && r.createdAt == e.createdAt && r.createdBy == e.createdBy
    ensures TruthyText(title) ==> r.title == title.value
    ensures !TruthyText(title) ==> r.title == e.title
    ensures TruthyText(description) ==> r.description == description
    ensures !TruthyText(description) ==> r.description == e.description
    ensures TruthyCoordinate(latitude) ==> r.latitude == latitude.value
    ensures !TruthyCoordinate(latitude) ==> r.latitude == e.latitude
    ensures TruthyCoordinate(longitude) ==> r.longitude == longitude.value
    ensures !TruthyCoordinate(longitude) ==> r.longitude == e.longitude
    ensures TruthyText(imageUrl) ==> r.imageUrl == imageUrl.value
    ensures !TruthyText(imageUrl) ==> r.imageUrl == e.imageUrl
  {
    var e := if TruthyText(title) then e.(title := title.value) else e;
    var e := if TruthyText(description) then e.(description := description) else e;
    var e := if TruthyCoordinate(latitude) then e.(latitude := latitude.value) else e;
    var e := if TruthyCoordinate(longitude) then e.(longitude := longitude.value) else e;
    if TruthyText(imageUrl) then e.(imageUrl := imageUrl.value) else e
  }

  /** The ids of `order` other than `id`, in order. */
  function OtherIds(order: seq<int>, id: int): (r: seq<int>)
    ensures forall k :: k in r <==> k in order && k != id
    ensures IsSubsequence(r, order)
    ensures Distinct(order) ==> Distinct(r)
  {
    Filter(order, (k: int) => k != id)
  }

  /** The records of `entries` not keyed `id`, in order. */
  function OtherEntries(entries: seq<Entry>, id: int): (r: seq<Entry>)
    ensures forall e :: e in r <==> e in entries && e.id != id
    ensures IsSubsequence(r, entries)
  {
    Filter(entries, (e: Entry) => e.id != id)
  }

  function IdSet(s: seq<int>): set<int> {
    set k | k in s
  }

  /** A list of distinct ids names as many ids as it is long. */
  lemma {:induction false} DistinctIdCount(s: seq<int>)
    requires Distinct(s)
    ensures |IdSet(s)| == |s|
  {
    if s != [] {
      DistinctIdCount(s[1..]);
      assert IdSet(s) == {s[0]} + IdSet(s[1..]);
      assert s[0] !in IdSet(s[1..]);
    }
  }

  /** The `graffiti_entries` table. `rows` maps each primary key to its row;
      `order` is the order in which the store returns rows from an unordered
      query (here: insertion order); `nextId` is where the store's key
      assignment stands. */
  class GraffitiTable {
    var rows: map<int, Entry>
    var order: seq<int>
    var nextId: int

    ghost predicate Valid()
      reads this
    {
      && KeyedById(rows)
      && Distinct(order)
      && (forall i | 0 <= i < |order| :: order[i] in rows)
      && (forall k | k in rows :: k in order && k < nextId)
    }

    /** An empty table. */
    constructor ()
      ensures Valid()
      ensures rows == map[] && order == []
    {
      rows, order, nextId := map[], [], 1;
    }

    /** `get_all_graffiti_entries`: one flat record per stored row. */
    function GetAll(storeError: Option<string>): (r: Result<seq<Entry>>)
      reads this
      requires Valid()
      ensures storeError.Some? ==> r == Fail(storeError.value)
      ensures storeError.None? ==> r.Ok?
      ensures r.Ok? ==> r.value == ListEntries(rows, order)
      ensures r.Ok? ==> |r.value| == |rows|
      ensures r.Ok? ==> forall i | 0 <= i < |r.value| :: r.value[i].id in rows && rows[r.value[i].id] == r.value[i]
      ensures r.Ok? ==> forall k | k in rows :: rows[k] in r.value
      ensures r.Ok? ==> forall i, j | 0 <= i < j < |r.value| :: r.value[i].id != r.value[j].id
    {
      if storeError.Some? then Fail(storeError.value)
      else
        var listed := ListEntries(rows, order);
        assert rows.Keys == IdSet(order) by {
          forall k | k in IdSet(order) ensures k in rows {
            var i :| 0 <= i < |order| && order[i] == k;
          }
          forall k | k in rows ensures k in IdSet(order) {
            assert k in order;
          }
        }
        DistinctIdCount(order);
        assert forall k | k in rows :: exists i | 0 <= i < |order| :: order[i] == k && listed[i] == rows[k];
        Ok(listed)
    }

    /** `get_graffiti_entry_by_id`: the flat record stored under `entryId`, or "Entry not found.". */
    function GetById(entryId: int, storeError: Option<string>): (r: Result<Entry>)
      reads this
      requires Valid()
      ensures storeError.Some? ==> r == Fail(storeError.value)
      ensures storeError.None? ==> (r.Ok? <==> entryId in rows)
      ensures storeError.None? && entryId !in rows ==> r == Fail(NotFoundMessage)
      ensures r.Ok? ==> r.value.id == entryId && entryId in rows && r.value == rows[entryId]
    {
      if storeError.Some? then Fail(storeError.value)
      else if entryId in rows then Ok(rows[entryId])
      else Fail(NotFoundMessage)
    }

    /** `search_graffiti_by_title`: the stored rows whose title contains
        `keyword` ignoring case, in the order the table lists them. */
    function Search(keyword: string, storeError: Option<string>): (r: Result<seq<Entry>>)
      reads this
      requires Valid()
      ensures storeError.Some? ==> r == Fail(storeError.value)
      ensures storeError.None? ==> r.Ok?
      ensures r.Ok? ==> forall e :: e in r.value <==>
                (e.id in rows && rows[e.id] == e && ContainsIgnoringCase(e.title, keyword))
      ensures r.Ok? ==> IsSubsequence(r.value, ListEntries(rows, order))
    {
      if storeError.Some? then Fail(storeError.value)
      else
        var listed := ListEntries(rows, order);
        assert forall e | e in listed :: e.id in rows && rows[e.id] == e by {
          forall e | e in listed ensures e.id in rows && rows[e.id] == e {
            var i :| 0 <= i < |listed| && listed[i] == e;
            assert order[i] in rows && e == rows[order[i]];
            assert rows[order[i]].id == order[i];
          }
        }
        assert forall k | k in rows :: rows[k] in listed by {
          forall k | k in rows ensures rows[k] in listed {
            var i :| 0 <= i < |order| && order[i] == k;
            assert listed[i] == rows[k];
          }
        }
        Ok(FilterByTitle(listed, keyword))
    }

    /** `add_graffiti_entry`: inserts the supplied columns under a fresh key,
        with `created_at` set to `now`. An insert with a NULL in a NOT NULL
        column, or any store fault, is rolled back. */
    method Add(title: Option<string>, description: Option<string>, latitude: Option<real>,
               longitude: Option<real>, imageUrl: Option<string>, createdBy: Option<string>,
               now: Timestamp, storeError: Option<string>) returns (r: Result<Added>)
      requires Valid()
      modifies this
      ensures Valid()
      ensures var p := PendingEntry(title, description, latitude, longitude, imageUrl, createdBy);
        && (r.Ok? <==> storeError.None? && Complete(p))
        && (storeError.Some? ==> r == Fail(storeError.value))
        && (storeError.None? && !Complete(p) ==> r == Fail(NotNullMessage(MissingColumn(p).value)))
        && (r.Ok? ==>
              && r.value.message == AddedMessage
              && r.value.entryId !in old(rows)
              && rows == old(rows)[r.value.entryId := Materialize(p, r.value.entryId, now)]
              && order == old(order) + [r.value.entryId]
              && GetById(r.value.entryId, None) == Ok(Materialize(p, r.value.entryId, now)))
      ensures r.Fail? ==> rows == old(rows) && order == old(order)
      ensures ImmutableColumnsKept(old(rows), rows)
    {
      var pending := PendingEntry(title, description, latitude, longitude, imageUrl, createdBy);
      if storeError.Some? {
        return Fail(storeError.value);
      }
      var missing := MissingColumn(pending);
      if missing.Some? {
        return Fail(NotNullMessage(missing.value));
      }
      var id := nextId;
      var entry := Materialize(pending, id, now);
      rows := rows[id := entry];
      order := order + [id];
      nextId := nextId + 1;
      r := Ok(Added(AddedMessage, id));
    }

    /** `update_graffiti_entry`: overwrites each column whose argument is
        truthy, one guarded assignment at a time. */
    method Update(entryId: int, title: Option<string>, description: Option<string>,
                  latitude: Option<real>, longitude: Option<real>, imageUrl: Option<string>,
                  storeError: Option<string>) returns (r: Result<string>)
      requires Valid()
      modifies this
      ensures Valid()
      ensures storeError.Some? ==> r == Fail(storeError.value)
      ensures storeError.None? && entryId !in old(rows) ==> r == Fail(NotFoundMessage)
      ensures storeError.None? && entryId in old(rows) ==> r == Ok(UpdatedMessage)
      ensures r.Fail? ==> rows == old(rows)
      ensures r.Ok? ==> && entryId in old(rows)
                        && rows == old(rows)[entryId := Updated(old(rows)[entryId], title, description, latitude, longitude, imageUrl)]
                        && GetById(entryId, None) == Ok(Updated(old(rows)[entryId], title, description, latitude, longitude, imageUrl))
      ensures forall k | k != entryId :: GetById(k, None) == old(GetById(k, None))
      ensures order == old(order)
      ensures ImmutableColumnsKept(old(rows), rows)
    {
      if storeError.Some? {
        return Fail(storeError.value);
      }
      if entryId !in rows {
        return Fail(NotFoundMessage);
      }
      var entry := rows[entryId];
      if TruthyText(title) { entry := entry.(title := title.value); }
      if TruthyText(description) { entry := entry.(description := description); }
      if TruthyCoordinate(latitude) { entry := entry.(latitude := latitude.value); }
      if TruthyCoordinate(longitude) { entry := entry.(longitude := longitude.value); }
      if TruthyText(imageUrl) { entry := entry.(imageUrl := imageUrl.value); }
      assert entry == Updated(rows[entryId], title, description, latitude, longitude, imageUrl);
      rows := rows[entryId := entry];
      r := Ok(UpdatedMessage);
    }

    /** `delete_graffiti_entry`: removes the row stored under `entryId`. */
    method Delete(entryId: int, storeError: Option<string>) returns (r: Result<string>)
      requires Valid()
      modifies this
      ensures Valid()
      ensures storeError.Some? ==> r == Fail(storeError.value)
      ensures storeError.None? && entryId !in old(rows) ==> r == Fail(NotFoundMessage)
      ensures storeError.None? && entryId in old(rows) ==> r == Ok(DeletedMessage)
      ensures r.Fail? ==> rows == old(rows) && order == old(order)
      ensures r.Ok? ==> && rows == old(rows) - {entryId}
                        && order == OtherIds(old(order), entryId)
                        && GetById(entryId, None) == Fail(NotFoundMessage)
      ensures forall k | k != entryId :: GetById(k, None) == old(GetById(k, None))
      ensures ImmutableColumnsKept(old(rows), rows)
    {
      if storeError.Some? {
        return Fail(storeError.value);
      }
      if entryId !in rows {
        return Fail(NotFoundMessage);
      }
      rows := rows - {entryId};
      ghost var before := order;
      order := OtherIds(order, entryId);
      forall i | 0 <= i < |order| ensures order[i] in rows {
        assert order[i] in before;
      }
      r := Ok(DeletedMessage);
    }
  }
}
