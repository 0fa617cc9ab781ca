/** The `graffiti_entries` table: its record shape and the constraints its columns declare. */
module Models {
  import opened Results

  /** The value of `created_at`; only its identity matters to the data-access layer. */
  datatype Timestamp = Timestamp(ticks: int)

  /** One stored row. The NOT NULL columns are plain values; the nullable
      `description` is an Option. `created_at` is always present because the
      column default fills it on every insert. */
  datatype Entry = Entry(
    id: int,
    title: string,
    description: Option<string>,
    latitude: real,
    longitude: real,
    imageUrl: string,
    createdAt: Timestamp,
    createdBy: string)

  /** A `GraffitiEntry` object before its first flush: the six caller-supplied
      columns, any of which may still be None. */
  datatype PendingEntry = PendingEntry(
    title: Option<string>,
    description: Option<string>,
    latitude: Option<real>,
    longitude: Option<real>,
    imageUrl: Option<string>,
    createdBy: Option<string>)

  /** The caller-supplied columns declared `nullable=False`, in declaration order. */
  datatype Column = Title | Latitude | Longitude | ImageUrl | CreatedBy

  function ColumnName(c: Column): string {
    match c
    case Title => "title"
    case Latitude => "latitude"
    case Longitude => "longitude"
    case ImageUrl => "image_url"
    case CreatedBy => "created_by"
  }

  predicate IsNull(p: PendingEntry, c: Column) {
    match c
    case Title => p.title.None?
    case Latitude => p.latitude.None?
    case Longitude => p.longitude.None?
    case ImageUrl => p.imageUrl.None?
    case CreatedBy => p.createdBy.None?
  }

  /** Every NOT NULL column holds a value, so the store accepts the insert. */
  predicate Complete(p: PendingEntry) {
    forall c: Column :: !IsNull(p, c)
  }

  /** The NOT NULL column the store reports when the insert is refused,
      checked in declaration order; None when the insert is accepted. */
  function MissingColumn(p: PendingEntry): (r: Option<Column>)
    ensures r.None? <==> Complete(p)
    ensures r.Some? ==> IsNull(p, r.value)
  {
    if IsNull(p, Title) then Some(Title)
    else if IsNull(p, Latitude) then Some(Latitude)
    else if IsNull(p, Longitude) then Some(Longitude)
    else if IsNull(p, ImageUrl) then Some(ImageUrl)
    else if IsNull(p, CreatedBy) then Some(CreatedBy)
    else None
  }

  /** The failure message of a refused insert (the driver's wrapper text is not modelled). */
  function NotNullMessage(c: Column): string {
    "NOT NULL constraint failed: graffiti_entries." + ColumnName(c)
  }

  /** The caller-supplied part of a stored row. */
  function Supplied(e: Entry): PendingEntry {
    PendingEntry(Some(e.title), e.description, Some(e.latitude), Some(e.longitude),
                 Some(e.imageUrl), Some(e.createdBy))
  }

  /** The row the store writes for an accepted insert: the key it assigned,
      the supplied columns, and the column default for `created_at`. */
  function Materialize(p: PendingEntry, id: int, now: Timestamp): (e: Entry)
    requires Complete(p)
    ensures Supplied(e) == p
    ensures e.id == id && e.createdAt == now
  {
    assert !IsNull(p, Title) && !IsNull(p, Latitude) && !IsNull(p, Longitude);
    assert !IsNull(p, ImageUrl) && !IsNull(p, CreatedBy);
    Entry(id, p.title.value, p.description, p.latitude.value, p.longitude.value,
          p.imageUrl.value, now, p.createdBy.value)
  }

  /** `id` is the primary key: every row is stored under its own id, so no
      two rows share one. */
  ghost predicate KeyedById(rows: map<int, Entry>) {
    forall k | k in rows :: rows[k].id == k
  }

  /** No two stored rows share an id. */
  lemma IdsAreUnique(rows: map<int, Entry>, j: int, k: int)
    requires KeyedById(rows)
    requires j in rows && k in rows && j != k
    ensures rows[j].id != rows[k].id
  {
  }

  /** `description` is the one caller-supplied column that may be NULL:
      leaving it out never decides whether the insert is accepted. */
  lemma DescriptionIsOptional(p: PendingEntry)
    ensures Complete(p.(description := None)) == Complete(p)
  {
    assert forall c: Column :: IsNull(p.(description := None), c) == IsNull(p, c);
  }

  /** The columns no operation may change once a row exists: `id`,
      `created_at` and `created_by`. Holds between two states of the table
      when every row present in both kept them. */
  ghost predicate ImmutableColumnsKept(before: map<int, Entry>, after: map<int, Entry>) {
    forall k | k in before && k in after ::
      && after[k].id == before[k].id
      && after[k].createdAt == before[k].createdAt
      && after[k].createdBy == before[k].createdBy
  }
}
