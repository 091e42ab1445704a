/**
 * The `file_states` table and the SQL statements that act on it.
 *
 * The table is keyed by File_Path_Hash (its primary key), so it is a map from
 * hash to the rest of the row; a key of a map cannot occur twice. Status is
 * kept as the text the statements write and compare, and the schema's CHECK
 * and length constraints are the predicate TableValid. Each statement is a
 * pure function from the old table to the new one, and the class
 * FileStatesTable executes them against its `rows` field.
 */
module DatabaseQueries {
  import opened Wrappers
  import MD5Util

  // IndexingStatus
  const PENDING: string := "Pending"
  const IN_PROGRESS: string := "In_Progress"
  const COMPLETE: string := "Complete"
  const ERROR: string := "Error"
  const DELETED: string := "Deleted"

  // Column widths of SETUP_SCHEMA
  const FILE_PATH_WIDTH := 1024
  const FILE_PATH_HASH_WIDTH := 32
  const STATUS_WIDTH := 15

  /** The CHECK (Status IN (...)) constraint. */
  predicate IsIndexingStatus(s: string) {
    s == PENDING || s == IN_PROGRESS || s == COMPLETE || s == ERROR || s == DELETED
  }

  type Hash = string

  /** One row of file_states, without its key. Error_Message is the only nullable column. */
  datatype Row = Row(filePath: string, status: string, lastModified: int, errorMessage: Option<string>)

  type Table = map<Hash, Row>

  /**
   * The length H2 checks a VARCHAR width against: Java `String.length()`, in
   * UTF-16 code units, so a character outside the Basic Multilingual Plane
   * counts twice.
   */
  function Utf16Length(s: string): (n: nat)
    ensures |s| <= n <= 2 * |s|
    decreases |s|
  {
    if s == [] then 0
    else Utf16Length(s[..|s| - 1]) + (if s[|s| - 1] as int < 0x1_0000 then 1 else 2)
  }

  /** Text made only of Basic Multilingual Plane characters has one code unit per character. */
  lemma {:induction false} Utf16LengthOfBmp(s: string)
    requires forall k :: 0 <= k < |s| ==> s[k] as int < 0x1_0000
    ensures Utf16Length(s) == |s|
    decreases |s|
  {
    if s != [] {
      Utf16LengthOfBmp(s[..|s| - 1]);
    }
  }

  /**
   * A status the CHECK constraint admits is ASCII, so its width in code units
   * is its character count, and it fits VARCHAR(15). RowValid therefore checks
   * the Status width by character count.
   */
  lemma StatusWidthInCodeUnits(s: string)
    requires IsIndexingStatus(s)
    ensures Utf16Length(s) == |s| <= STATUS_WIDTH
  {
    assert |s| <= 11;
    forall k | 0 <= k < |s| ensures s[k] as int < 0x1_0000 {
      assert 'A' <= s[k] <= 'z' || s[k] == '_';
    }
    Utf16LengthOfBmp(s);
  }

  /** The column constraints of SETUP_SCHEMA hold for one row; widths are in UTF-16 code units. */
  predicate RowValid(h: Hash, row: Row) {
    && Utf16Length(h) <= FILE_PATH_HASH_WIDTH
    && Utf16Length(row.filePath) <= FILE_PATH_WIDTH
    && |row.status| <= STATUS_WIDTH
    && IsIndexingStatus(row.status)
  }

  predicate TableValid(t: Table) {
    forall h :: h in t ==> RowValid(h, t[h])
  }

  /** Two rows agree on every column but Status. */
  predicate SameButStatus(a: Row, b: Row) {
    a.filePath == b.filePath && a.lastModified == b.lastModified && a.errorMessage == b.errorMessage
  }

  /** A statement was rejected by a column constraint; the table is left as it was. */
  datatype SqlError = ConstraintViolation

  // ---------------------------------------------------------------------
  // STANDARD_MERGE_INTO_TABLE
  // ---------------------------------------------------------------------

  /** The five parameters of the MERGE, in order. */
  datatype MergeValues = MergeValues(
    filePath: string,
    filePathHash: Hash,
    status: string,
    lastModified: int,
    errorMessage: Option<string>)

  /** The WHEN MATCHED AND (...) condition. */
  predicate UpdateApplies(stored: Row, v: MergeValues) {
    v.lastModified > stored.lastModified ||
    (stored.lastModified == v.lastModified && v.status != PENDING)
  }

  /** The row the WHEN NOT MATCHED branch inserts. */
  function InsertedRow(v: MergeValues): Row {
    Row(v.filePath, v.status, v.lastModified, v.errorMessage)
  }

  /** The MERGE: insert an unseen hash, or update a matched row when the incoming values take precedence. */
  function Merged(t: Table, v: MergeValues): (r: Result<Table, SqlError>)
    // the table never loses a row and gains at most the merged hash
    ensures r.Success? ==> r.value.Keys == t.Keys + {v.filePathHash}
    // unseen hash: exactly one new row carrying the five values verbatim, if they fit the schema
    ensures v.filePathHash !in t ==> (r.Success? <==> RowValid(v.filePathHash, InsertedRow(v)))
    ensures v.filePathHash !in t && r.Success? ==>
      r.value[v.filePathHash] == Row(v.filePath, v.status, v.lastModified, v.errorMessage)
    // existing hash, precedence lost: the table is unchanged
    ensures v.filePathHash in t && !UpdateApplies(t[v.filePathHash], v) ==> r == Success(t)
    // existing hash, precedence won: Status, Last_Modified and Error_Message replaced, File_Path kept
    ensures v.filePathHash in t && UpdateApplies(t[v.filePathHash], v) ==>
      && (r.Success? <==> |v.status| <= STATUS_WIDTH && IsIndexingStatus(v.status))
      && (r.Success? ==>
            && r.value[v.filePathHash].filePath == t[v.filePathHash].filePath
            && r.value[v.filePathHash].status == v.status
            && r.value[v.filePathHash].lastModified == v.lastModified
            && r.value[v.filePathHash].errorMessage == v.errorMessage)
    // every other row is untouched
    ensures r.Success? ==> forall h :: h in t && h != v.filePathHash ==> r.value[h] == t[h]
    // a stored Last_Modified never decreases
    ensures r.Success? ==> forall h :: h in t ==> r.value[h].lastModified >= t[h].lastModified
    // the schema's constraints are preserved
    ensures TableValid(t) && r.Success? ==> TableValid(r.value)
  {
    var h := v.filePathHash;
    if h in t then
      var stored := t[h];
      if !UpdateApplies(stored, v) then Success(t)
      else if |v.status| <= STATUS_WIDTH && IsIndexingStatus(v.status) then
        Success(t[h := stored.(status := v.status, lastModified := v.lastModified, errorMessage := v.errorMessage)])
      else Failure(ConstraintViolation)
    else if RowValid(h, InsertedRow(v)) then Success(t[h := InsertedRow(v)])
    else Failure(ConstraintViolation)
  }

  /** Merging the same values a second time changes nothing. */
  lemma MergeIdempotent(t: Table, v: MergeValues)
    requires Merged(t, v).Success?
    ensures Merged(Merged(t, v).value, v) == Merged(t, v)
  {
    var t1 := Merged(t, v).value;
    var h := v.filePathHash;
    if h !in t || UpdateApplies(t[h], v) {
      assert t1[h].lastModified == v.lastModified && t1[h].status == v.status;
      if UpdateApplies(t1[h], v) {
        assert t1[h := t1[h].(status := v.status, lastModified := v.lastModified, errorMessage := v.errorMessage)] == t1;
      }
    }
  }

  /** The older observation merged after the newer one loses precedence and changes nothing. */
  lemma OlderAfterNewerIsNoOp(t: Table, older: MergeValues, newer: MergeValues)
    requires older.filePathHash == newer.filePathHash && older.lastModified < newer.lastModified
    requires RowValid(newer.filePathHash, InsertedRow(newer))
    ensures Merged(t, newer).Success?
    ensures Merged(Merged(t, newer).value, older) == Merged(t, newer)
  {
    var h := newer.filePathHash;
    var tn := Merged(t, newer).value;
    assert tn[h].lastModified >= newer.lastModified;
    assert !UpdateApplies(tn[h], older);
  }

  /** The newer observation merged after the older one gives the table the newer one alone gives. */
  lemma NewerAfterOlderOverrides(t: Table, older: MergeValues, newer: MergeValues)
    requires older.filePathHash == newer.filePathHash && older.filePath == newer.filePath
    requires older.lastModified < newer.lastModified
    requires RowValid(older.filePathHash, InsertedRow(older)) && RowValid(newer.filePathHash, InsertedRow(newer))
    ensures Merged(t, older).Success? && Merged(t, newer).Success?
    ensures Merged(Merged(t, older).value, newer) == Merged(t, newer)
  {
    var h := newer.filePathHash;
    if h in t && !UpdateApplies(t[h], newer) {
      assert !UpdateApplies(t[h], older);
    } else {
      OverrideLeavesSameTable(t, older, newer);
    }
  }

  /** When the newer observation takes effect, merging the older one first makes no difference to the end table. */
  lemma OverrideLeavesSameTable(t: Table, older: MergeValues, newer: MergeValues)
    requires older.filePathHash == newer.filePathHash && older.filePath == newer.filePath
    requires older.lastModified < newer.lastModified
    requires RowValid(older.filePathHash, InsertedRow(older)) && RowValid(newer.filePathHash, InsertedRow(newer))
    requires newer.filePathHash !in t || UpdateApplies(t[newer.filePathHash], newer)
    ensures Merged(t, older).Success? && Merged(t, newer).Success?
    ensures Merged(Merged(t, older).value, newer) == Merged(t, newer)
  {
    var h := newer.filePathHash;
    var to := Merged(t, older).value;
    var row := if h in t then t[h] else InsertedRow(older);
    var winner := row.(status := newer.status, lastModified := newer.lastModified, errorMessage := newer.errorMessage);
    assert Merged(t, newer) == Success(t[h := winner]);
    assert to[h].filePath == row.filePath;
    assert UpdateApplies(to[h], newer);
    assert Merged(to, newer) == Success(to[h := winner]);
    assert to[h := winner] == t[h := winner];
  }

  /**
   * Two observations of one path with different timestamps end in the same
   * table whichever is merged first: the newer one's values win, so the
   * result is the table the newer observation alone produces.
   */
  lemma MergeNewestWins(t: Table, older: MergeValues, newer: MergeValues)
    requires older.filePathHash == newer.filePathHash && older.filePath == newer.filePath
    requires older.lastModified < newer.lastModified
    requires RowValid(older.filePathHash, InsertedRow(older)) && RowValid(newer.filePathHash, InsertedRow(newer))
    ensures Merged(t, older).Success? && Merged(t, newer).Success?
    ensures Merged(Merged(t, older).value, newer) == Merged(Merged(t, newer).value, older)
    ensures Merged(Merged(t, older).value, newer) == Merged(t, newer)
    ensures Merged(Merged(t, newer).value, older) == Merged(t, newer)
    ensures Merged(t, newer).value == t || Merged(t, newer).value[newer.filePathHash].lastModified == newer.lastModified
  {
    OlderAfterNewerIsNoOp(t, older, newer);
    NewerAfterOlderOverrides(t, older, newer);
  }

  // ---------------------------------------------------------------------
  // MARK_FILES_AS_DELETED, MARK_FILES_AS_PENDING
  // ---------------------------------------------------------------------

  /** UPDATE ... SET Status = 'Deleted' WHERE File_Path_Hash = ANY(hashes). */
  function MarkedDeleted(t: Table, hashes: set<Hash>): (r: Table)
    ensures r.Keys == t.Keys
    ensures forall h :: h in t ==> SameButStatus(r[h], t[h])
    ensures forall h :: h in t && h in hashes ==> r[h].status == DELETED
    ensures forall h :: h in t && h !in hashes ==> r[h] == t[h]
    ensures TableValid(t) ==> TableValid(r)
  {
    map h | h in t :: if h in hashes then t[h].(status := DELETED) else t[h]
  }

  /** UPDATE ... SET status = 'Pending' WHERE File_Path_Hash = ANY(hashes). */
  function MarkedPending(t: Table, hashes: set<Hash>): (r: Table)
    ensures r.Keys == t.Keys
    ensures forall h :: h in t ==> SameButStatus(r[h], t[h])
    ensures forall h :: h in t && h in hashes ==> r[h].status == PENDING
    ensures forall h :: h in t && h !in hashes ==> r[h] == t[h]
    ensures TableValid(t) ==> TableValid(r)
  {
    map h | h in t :: if h in hashes then t[h].(status := PENDING) else t[h]
  }

  lemma MarkedDeletedIdempotent(t: Table, hashes: set<Hash>)
    ensures MarkedDeleted(MarkedDeleted(t, hashes), hashes) == MarkedDeleted(t, hashes)
  {
  }

  lemma MarkedPendingIdempotent(t: Table, hashes: set<Hash>)
    ensures MarkedPending(MarkedPending(t, hashes), hashes) == MarkedPending(t, hashes)
  {
  }

  // ---------------------------------------------------------------------
  // FLAG_STALE_FILES_IN_DIRECTORY
  // ---------------------------------------------------------------------

  /**
   * UPDATE ... SET status = 'Deleted' WHERE NOT (File_Path_Hash = ANY(present))
   * AND Status <> 'Deleted'. With an empty array ANY is false, so every row is flagged.
   */
  function FlaggedStale(t: Table, present: set<Hash>): (r: Table)
    ensures r.Keys == t.Keys
    ensures forall h :: h in t ==> SameButStatus(r[h], t[h])
    ensures forall h :: h in t && h !in present ==> r[h].status == DELETED
    ensures forall h :: h in t && h in present ==> r[h] == t[h]
    ensures TableValid(t) ==> TableValid(r)
  {
    map h | h in t :: if h !in present && t[h].status != DELETED then t[h].(status := DELETED) else t[h]
  }

  lemma FlaggedStaleIdempotent(t: Table, present: set<Hash>)
    ensures FlaggedStale(FlaggedStale(t, present), present) == FlaggedStale(t, present)
  {
  }

  /** The sweep is the bulk mark-deleted of every hash absent from the crawl. */
  lemma FlaggedStaleIsMarkDeletedOfAbsent(t: Table, present: set<Hash>)
    ensures FlaggedStale(t, present) == MarkedDeleted(t, t.Keys - present)
  {
  }

  // ---------------------------------------------------------------------
  // REMOVE_FILES_FROM_TABLE
  // ---------------------------------------------------------------------

  /** DELETE FROM file_states WHERE File_Path_Hash = ANY(hashes). */
  function Removed(t: Table, hashes: set<Hash>): (r: Table)
    ensures r.Keys == t.Keys - hashes
    ensures forall h :: h in r ==> r[h] == t[h]
    ensures TableValid(t) ==> TableValid(r)
  {
    t - hashes
  }

  // ---------------------------------------------------------------------
  // SELECT_PENDING_FILES
  // ---------------------------------------------------------------------

  /** SELECT * ... WHERE Status = 'Pending': the matching rows with their keys, in no order. */
  function PendingRows(t: Table): (r: Table)
    ensures r.Keys <= t.Keys
    ensures forall h :: h in r ==> r[h] == t[h] && r[h].status == PENDING
    ensures forall h :: h in t && t[h].status == PENDING ==> h in r
  {
    map h | h in t && t[h].status == PENDING :: t[h]
  }

  lemma PendingAfterMarkDeleted(t: Table, hashes: set<Hash>)
    ensures PendingRows(MarkedDeleted(t, hashes)) == PendingRows(t) - hashes
  {
  }

  lemma PendingAfterMarkPending(t: Table, hashes: set<Hash>)
    ensures PendingRows(MarkedPending(t, hashes)).Keys == PendingRows(t).Keys + (t.Keys * hashes)
  {
  }

  /** After a sweep only hashes the crawl reported can still be pending. */
  lemma PendingAfterSweep(t: Table, present: set<Hash>)
    ensures PendingRows(FlaggedStale(t, present)) == PendingRows(t) - (t.Keys - present)
  {
  }

  lemma PendingAfterRemove(t: Table, hashes: set<Hash>)
    ensures PendingRows(Removed(t, hashes)) == PendingRows(t) - hashes
  {
  }

  /** Every Md5Hex result fits the VARCHAR(32) key column. */
  lemma Md5HexFitsKeyColumn(p: MD5Util.Platform, path: string)
    ensures Utf16Length(MD5Util.Md5Hex(p, path)) <= FILE_PATH_HASH_WIDTH
  {
    var hex := MD5Util.Md5Hex(p, path);
    assert forall k :: 0 <= k < |hex| ==> hex[k] as int < 0x1_0000 by {
      forall k | 0 <= k < |hex| ensures hex[k] as int < 0x1_0000 {
        assert MD5Util.IsLowerHexDigit(hex[k]);
      }
    }
    Utf16LengthOfBmp(hex);
  }

  // ---------------------------------------------------------------------
  // The table
  // ---------------------------------------------------------------------

  class FileStatesTable {
    var rows: Table

    ghost predicate Valid()
      reads this
    {
      TableValid(rows)
    }

    /** SETUP_SCHEMA: CREATE TABLE IF NOT EXISTS keeps a persisted table, or starts empty. */
    constructor Open(persisted: Option<Table>)
      requires persisted.Some? ==> TableValid(persisted.value)
      ensures Valid()
      ensures persisted.Some? ==> rows == persisted.value
      ensures persisted.None? ==> rows == map[]
    {
      rows := if persisted.Some? then persisted.value else map[];
    }

    method MergeInto(v: MergeValues) returns (outcome: Outcome<SqlError>)
      requires Valid()
      modifies this
      ensures Valid()
      ensures Merged(old(rows), v).Success? ==> outcome == Pass && rows == Merged(old(rows), v).value
      ensures Merged(old(rows), v).Failure? ==> outcome == Fail(Merged(old(rows), v).error) && rows == old(rows)
    {
      var r := Merged(rows, v);
      if r.Success? {
        rows := r.value;
        outcome := Pass;
      } else {
        outcome := Fail(r.error);
      }
    }

    method MarkFilesAsDeleted(hashes: set<Hash>)
      requires Valid()
      modifies this
      ensures Valid()
      ensures rows == MarkedDeleted(old(rows), hashes)
    {
      rows := MarkedDeleted(rows, hashes);
    }

    method MarkFilesAsPending(hashes: set<Hash>)
      requires Valid()
      modifies this
      ensures Valid()
      ensures rows == MarkedPending(old(rows), hashes)
    {
      rows := MarkedPending(rows, hashes);
    }

    method FlagStaleFilesInDirectory(present: set<Hash>)
      requires Valid()
      modifies this
      ensures Valid()
      ensures rows == FlaggedStale(old(rows), present)
    {
      rows := FlaggedStale(rows, present);
    }

    method RemoveFilesFromTable(hashes: set<Hash>)
      requires Valid()
      modifies this
      ensures Valid()
      ensures rows == Removed(old(rows), hashes)
    {
      rows := Removed(rows, hashes);
    }

    /** A read: the table is not in any modifies clause. */
    method SelectPendingFiles() returns (pending: Table)
      ensures pending == PendingRows(rows)
      ensures forall h :: h in pending <==> h in rows && rows[h].status == PENDING
    {
      pending := PendingRows(rows);
    }
  }
}
