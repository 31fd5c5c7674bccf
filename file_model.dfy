/**
 * The `File` record: the metadata row kept for one uploaded file, its mass-assignable
 * fields, and the `createdOn` query scope.
 */
module FileModel {
  import opened Common
  import opened Sequences

  /** A point in time, in whole seconds since 1970-01-01 00:00:00 in the database's time zone. */
  type Timestamp = int

  const SecondsPerDay: int := 86400

  /** The calendar day of a timestamp, counted in days since 1970-01-01 (floor division). */
  function DateOf(t: Timestamp): int
  {
    t / SecondsPerDay
  }

  /**
   * A calendar day covers the half-open range [midnight, next midnight): this is
   * what `whereDate` compares against.
   */
  lemma DateOfRange(t: Timestamp, d: int)
    ensures DateOf(t) == d <==> d * SecondsPerDay <= t < (d + 1) * SecondsPerDay
  {
    var q := t / SecondsPerDay;
    assert q * SecondsPerDay <= t < q * SecondsPerDay + SecondsPerDay;
    if d < q {
      assert (d + 1) * SecondsPerDay <= q * SecondsPerDay;
    } else if d > q {
      assert d * SecondsPerDay >= (q + 1) * SecondsPerDay;
    }
  }

  /** The mass-assignable fields: exactly name, path, mime_type, size and description. */
  datatype Fields = Fields(name: string, path: string, mimeType: string, size: int, description: Option<string>)

  /**
   * A stored row: the fillable fields plus the key and the two timestamps the
   * database maintains. `size` is cast to an integer when read.
   */
  datatype Record = Record(
    id: int,
    name: string,
    path: string,
    mimeType: string,
    size: int,
    description: Option<string>,
    createdAt: Timestamp,
    updatedAt: Timestamp)

  /** The row `File::create` inserts: both timestamps are the insertion time. */
  function NewRecord(id: int, f: Fields, now: Timestamp): Record
  {
    Record(id, f.name, f.path, f.mimeType, f.size, f.description, now, now)
  }

  /** The fillable part of a row. */
  function FieldsOf(r: Record): Fields
  {
    Fields(r.name, r.path, r.mimeType, r.size, r.description)
  }

  /** A created row carries exactly the given fields, the given key and equal timestamps. */
  lemma NewRecordFields(id: int, f: Fields, now: Timestamp)
    ensures FieldsOf(NewRecord(id, f, now)) == f
    ensures NewRecord(id, f, now).id == id
    ensures NewRecord(id, f, now).createdAt == now && NewRecord(id, f, now).updatedAt == now
  {
  }

  /** The `createdOn` scope: the rows whose creation time falls on calendar day `d`. */
  function CreatedOn(rows: seq<Record>, d: int): (r: seq<Record>)
    ensures forall i :: 0 <= i < |r| ==> r[i] in rows && DateOf(r[i].createdAt) == d
    ensures forall i :: 0 <= i < |rows| && DateOf(rows[i].createdAt) == d ==> rows[i] in r
    ensures IsSubsequence(r, rows)
  {
    Where(rows, (x: Record) => DateOf(x.createdAt) == d)
  }

  /**
   * Two rows created at 10:00 and 15:30 on one day are selected for that day; rows
   * created at 10:00 on the day before and on the day after are not.
   */
  lemma CreatedOnSameDayOnly(r1: Record, r2: Record, r3: Record, r4: Record, d: int)
    requires r1.createdAt == d * SecondsPerDay + 10 * 3600
    requires r2.createdAt == d * SecondsPerDay + 15 * 3600 + 30 * 60
    requires r3.createdAt == (d - 1) * SecondsPerDay + 10 * 3600
    requires r4.createdAt == (d + 1) * SecondsPerDay + 10 * 3600
    ensures CreatedOn([r1, r2, r3, r4], d) == [r1, r2]
  {
    DateOfRange(r1.createdAt, d);
    DateOfRange(r2.createdAt, d);
    DateOfRange(r3.createdAt, d - 1);
    DateOfRange(r4.createdAt, d + 1);
    var rows := [r1, r2, r3, r4];
    var p := (x: Record) => DateOf(x.createdAt) == d;
    assert rows[1..][1..][1..][1..] == [];
    assert Where(rows[1..][1..][1..], p) == [];
    assert Where(rows[1..][1..], p) == [];
    assert Where(rows[1..], p) == [r2];
  }
}
