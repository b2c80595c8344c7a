/** The `gas_stations` table as a value, and the meaning of each statement
    the handlers run on it. The store class in StationStore performs these
    steps in place; the lemmas here are the properties of the service. */
module TableSpec {
  import opened StationModel

  /** The rows in scan order, and the AUTOINCREMENT counter
      (`sqlite_sequence`): the largest id ever inserted, never lowered by a
      DELETE. */
  datatype Table = Table(rows: seq<Station>, lastId: int)

  /** Ids strictly ascend along the rows; in particular no two rows share
      an id. */
  ghost predicate IdsAscending(rows: seq<Station>)
  {
    forall i, j :: 0 <= i < j < |rows| ==> rows[i].id < rows[j].id
  }

  /** The table invariant: every id is a positive rowid no larger than the
      AUTOINCREMENT counter, and rows are kept in id order. */
  ghost predicate WellFormed(t: Table)
  {
    && 0 <= t.lastId <= MaxRowId
    && (forall i :: 0 <= i < |t.rows| ==> 1 <= t.rows[i].id <= t.lastId)
    && IdsAscending(t.rows)
  }

  /** The ids in use. */
  function Ids(rows: seq<Station>): set<int>
  {
    set s | s in rows :: s.id
  }

  // ---------------------------------------------------------------------
  // SELECT COUNT(*) AS count FROM gas_stations WHERE address = ?

  /** The number of rows whose address equals `a`; a NULL address equals
      nothing. */
  function CountAddress(rows: seq<Station>, a: string): (n: nat)
    ensures n <= |rows|
    ensures n == 0 <==> forall i :: 0 <= i < |rows| ==> rows[i].address != Some(a)
  {
    if rows == [] then 0
    else (if rows[0].address == Some(a) then 1 else 0) + CountAddress(rows[1..], a)
  }

  // ---------------------------------------------------------------------
  // SELECT MAX(id) AS maxId FROM gas_stations

  /** SQL `MAX(id)`: NULL (`None`) on an empty table, otherwise the largest
      id. */
  function MaxId(rows: seq<Station>): (m: Option<int>)
    ensures m.None? <==> rows == []
    ensures m.Some? ==> (forall i :: 0 <= i < |rows| ==> rows[i].id <= m.value)
    ensures m.Some? ==> exists i :: 0 <= i < |rows| && rows[i].id == m.value
  {
    if rows == [] then None
    else
      match MaxId(rows[1..])
      case None => Some(rows[0].id)
      case Some(m) =>
        assert exists i :: 1 <= i < |rows| && rows[i].id == m by {
          var k :| 0 <= k < |rows[1..]| && rows[1..][k].id == m;
          assert rows[k + 1].id == m;
        }
        Some(if rows[0].id < m then m else rows[0].id)
  }

  /** `(row.maxId || 0) + 1`: the id a manual insert asks for. `|| 0` only
      replaces NULL, since a maximum of 0 gives 1 either way. */
  function NextManualId(rows: seq<Station>): int
  {
    match MaxId(rows)
    case None => 1
    case Some(m) => m + 1
  }

  /** The id a manual insert asks for is 1 on an empty table and otherwise one
      more than the largest id, so it is greater than every id in use. */
  lemma NextManualIdFresh(t: Table)
    requires WellFormed(t)
    ensures t.rows == [] ==> NextManualId(t.rows) == 1
    ensures t.rows != [] ==> NextManualId(t.rows) == t.rows[|t.rows| - 1].id + 1
    ensures forall i :: 0 <= i < |t.rows| ==> t.rows[i].id < NextManualId(t.rows)
    ensures 1 <= NextManualId(t.rows) <= t.lastId + 1
  {
    if t.rows != [] {
      var m := MaxId(t.rows).value;
      var k :| 0 <= k < |t.rows| && t.rows[k].id == m;
      var last := |t.rows| - 1;
      assert t.rows[last].id <= m;
      assert t.rows[k].id <= t.rows[last].id;
    }
  }

  // ---------------------------------------------------------------------
  // INSERT INTO gas_stations (id, ...) VALUES (nextId, ..., 'user')

  /** A manual insert: the row gets id `MAX(id) + 1` (1 on an empty table)
      and source `'user'`; SQLite refuses an id past the largest rowid. The
      counter follows the largest id inserted. */
  function InsertManual(t: Table, address: Option<string>, lat: Coord, lon: Coord): (r: Result<(Table, int), Failure>)
    requires WellFormed(t)
    ensures r.Err? <==> t.rows != [] && t.rows[|t.rows| - 1].id == MaxRowId
    ensures r.Err? ==> r.error == DatatypeMismatch
    ensures r.Ok? ==>
      var (t', id) := r.value;
      && (t.rows == [] ==> id == 1)
      && (t.rows != [] ==> id == t.rows[|t.rows| - 1].id + 1)
      && (forall i :: 0 <= i < |t.rows| ==> t.rows[i].id < id)
      && t'.rows == t.rows + [Station(id, address, lat, lon, User)]
      && t'.lastId == (if t.lastId < id then id else t.lastId)
      && WellFormed(t')
  {
    NextManualIdFresh(t);
    var id := NextManualId(t.rows);
    if id > MaxRowId then Err(DatatypeMismatch)
    else Ok((Table(t.rows + [Station(id, address, lat, lon, User)], if t.lastId < id then id else t.lastId), id))
  }

  /** After the newest row is deleted, the next manual id is one more than
      the id of the row before it (1 when none is left), so it equals the
      deleted id whenever the two newest ids were consecutive; the next
      AUTOINCREMENT id is always larger than the deleted id. */
  lemma DeletedIdReusableOnlyByManualInsert(t: Table, c: Candidate)
    requires WellFormed(t) && t.rows != []
    ensures var n := |t.rows|;
      var newest := t.rows[n - 1].id;
      var t' := Table(RemoveId(t.rows, newest), t.lastId);
      && NextManualId(t'.rows) == (if n == 1 then 1 else t.rows[n - 2].id + 1)
      && ((n == 1 && newest == 1) || (n > 1 && t.rows[n - 2].id + 1 == newest) ==>
            NextManualId(t'.rows) == newest)
      && (InsertAuto(t', c).Ok? ==> InsertAuto(t', c).value.rows[|t'.rows|].id > newest)
  {
    var n := |t.rows|;
    RemoveNewest(t.rows);
    var t' := Table(t.rows[..n - 1], t.lastId);
    PrefixWellFormed(t, n - 1);
    NextManualIdFresh(t');
    if n > 1 {
      assert t'.rows[n - 2] == t.rows[n - 2];
    }
  }

  /** The first `k` rows of a well-formed table, with the same counter, form a
      well-formed table. */
  lemma PrefixWellFormed(t: Table, k: nat)
    requires WellFormed(t) && k <= |t.rows|
    ensures WellFormed(Table(t.rows[..k], t.lastId))
  {
    var p := t.rows[..k];
    assert forall i :: 0 <= i < k ==> p[i] == t.rows[i];
  }


  /** In a table in id order, deleting the newest id drops just the last
      row. */
  lemma RemoveNewest(rows: seq<Station>)
    requires rows != [] && IdsAscending(rows)
    ensures RemoveId(rows, rows[|rows| - 1].id) == rows[..|rows| - 1]
  {
    RemoveOnlyLast(rows, rows[|rows| - 1].id);
  }

  /** Deleting an id that only the last row has drops just that row. */
  lemma {:induction false} RemoveOnlyLast(rows: seq<Station>, id: int)
    requires rows != [] && rows[|rows| - 1].id == id
    requires forall i :: 0 <= i < |rows| - 1 ==> rows[i].id != id
    ensures RemoveId(rows, id) == rows[..|rows| - 1]
  {
    if |rows| > 1 {
      var tail := rows[1..];
      assert forall i :: 0 <= i < |tail| - 1 ==> tail[i] == rows[i + 1];
      RemoveOnlyLast(tail, id);
      assert rows[0].id != id;
      assert [rows[0]] + tail[..|tail| - 1] == rows[..|rows| - 1];
    }
  }


  // ---------------------------------------------------------------------
  // INSERT INTO gas_stations (address, latitude, longitude, source) VALUES (?, ?, ?, ?)

  /** An insert with an AUTOINCREMENT id: one more than the largest id ever
      used, or SQLITE_FULL once that id is the largest rowid. */
  function InsertAuto(t: Table, c: Candidate): (r: Result<Table, Failure>)
  {
    if t.lastId >= MaxRowId then Err(DatabaseFull)
    else Ok(Table(t.rows + [Station(t.lastId + 1, Some(c.address), c.latitude, c.longitude, c.source)], t.lastId + 1))
  }

  /** An AUTOINCREMENT insert keeps the table well formed and never reuses
      an id, not even one of a deleted row. */
  lemma InsertAutoFresh(t: Table, c: Candidate)
    requires WellFormed(t)
    ensures InsertAuto(t, c).Err? <==> t.lastId == MaxRowId
    ensures InsertAuto(t, c).Ok? ==>
      var t' := InsertAuto(t, c).value;
      && WellFormed(t')
      && t'.lastId == t.lastId + 1
      && t'.rows == t.rows + [Station(t.lastId + 1, Some(c.address), c.latitude, c.longitude, c.source)]
  {
  }

  // ---------------------------------------------------------------------
  // The import loop

  /** The outcome of an import run: the table afterwards, the running
      `count` of inserted rows, and the error that stopped the loop, if
      any. */
  datatype ImportOutcome = ImportOutcome(table: Table, count: nat, error: Option<Failure>)

  /** The import loop over candidates in order: a candidate is inserted
      exactly when no row, including rows inserted earlier in the run, has
      its address; a failed insert stops the loop and keeps what came
      before. */
  function ImportRun(t: Table, cs: seq<Candidate>): ImportOutcome
    decreases |cs|
  {
    if cs == [] then ImportOutcome(t, 0, None)
    else if CountAddress(t.rows, cs[0].address) != 0 then ImportRun(t, cs[1..])
    else
      match InsertAuto(t, cs[0])
      case Err(e) => ImportOutcome(t, 0, Some(e))
      case Ok(t') =>
        var rest := ImportRun(t', cs[1..]);
        rest.(count := rest.count + 1)
  }

  /** One step of ImportRun, for callers that walk the candidates. */
  lemma ImportRunUnfold(t: Table, cs: seq<Candidate>)
    requires cs != []
    ensures CountAddress(t.rows, cs[0].address) != 0 ==> ImportRun(t, cs) == ImportRun(t, cs[1..])
    ensures CountAddress(t.rows, cs[0].address) == 0 && InsertAuto(t, cs[0]).Err? ==>
      ImportRun(t, cs) == ImportOutcome(t, 0, Some(InsertAuto(t, cs[0]).error))
    ensures CountAddress(t.rows, cs[0].address) == 0 && InsertAuto(t, cs[0]).Ok? ==>
      var rest := ImportRun(InsertAuto(t, cs[0]).value, cs[1..]);
      && ImportRun(t, cs).table == rest.table
      && ImportRun(t, cs).count == rest.count + 1
      && ImportRun(t, cs).error == rest.error
  {
  }

  /** The loop body of the import when the first candidate's address is
      already present: nothing happens. */
  lemma ImportSkipsHead(t: Table, cs: seq<Candidate>)
    requires cs != [] && CountAddress(t.rows, cs[0].address) != 0
    ensures ImportRun(t, cs) == ImportRun(t, cs[1..])
  {
  }

  /** The loop body of the import when the counter is exhausted: the run
      stops with the table as it is. */
  lemma ImportStopsWhenFull(t: Table, cs: seq<Candidate>)
    requires cs != [] && CountAddress(t.rows, cs[0].address) == 0 && t.lastId >= MaxRowId
    ensures ImportRun(t, cs) == ImportOutcome(t, 0, Some(DatabaseFull))
  {
  }

  /** The loop body of the import when the first candidate is inserted:
      the rest of the run continues from the grown table, one more row
      counted. */
  lemma ImportInsertsHead(t: Table, cs: seq<Candidate>)
    requires cs != [] && CountAddress(t.rows, cs[0].address) == 0 && t.lastId < MaxRowId
    ensures var c := cs[0];
      var t' := Table(t.rows + [Station(t.lastId + 1, Some(c.address), c.latitude, c.longitude, c.source)], t.lastId + 1);
      && InsertAuto(t, c) == Ok(t')
      && ImportRun(t, cs) == var rest := ImportRun(t', cs[1..]); rest.(count := rest.count + 1)
  {
  }

  /** `r` is a row the import made from one of `cs`, with an id above
      `lastId`. */
  ghost predicate RowFromCandidates(r: Station, lastId: int, cs: seq<Candidate>)
  {
    && lastId < r.id
    && r.address.Some?
    && exists c :: c in cs && r.address == Some(c.address) && r.source == c.source
         && r.latitude == c.latitude && r.longitude == c.longitude
  }

  /** `out` keeps the rows of `t` in place, adds `out.count` rows made from
      `cs`, is well formed, and failed only with SQLITE_FULL. */
  ghost predicate AppendsTo(t: Table, out: ImportOutcome, cs: seq<Candidate>)
  {
    && WellFormed(out.table)
    && |out.table.rows| == |t.rows| + out.count
    && out.table.rows[..|t.rows|] == t.rows
    && t.lastId <= out.table.lastId
    && (forall k :: |t.rows| <= k < |out.table.rows| ==> RowFromCandidates(out.table.rows[k], t.lastId, cs))
    && (out.error.Some? ==> out.error.value == DatabaseFull && out.table.lastId == MaxRowId)
  }

  /** The import only appends: existing rows are kept in place (also when an
      insert fails), the table grows by exactly `count` rows, every new row
      is tagged like its candidate, gets a fresh id above the old counter,
      and the table stays well formed. A failure can only be SQLITE_FULL. */
  lemma {:induction false} ImportAppends(t: Table, cs: seq<Candidate>)
    requires WellFormed(t)
    ensures AppendsTo(t, ImportRun(t, cs), cs)
    decreases |cs|
  {
    if cs == [] {
      return;
    }
    var c := cs[0];
    ImportRunUnfold(t, cs);
    assert cs == [c] + cs[1..];
    InsertAutoFresh(t, c);
    if CountAddress(t.rows, c.address) != 0 {
      ImportAppends(t, cs[1..]);
      AppendsToWiden(t, ImportRun(t, cs[1..]), cs[1..], cs);
    } else if InsertAuto(t, c).Ok? {
      var t' := InsertAuto(t, c).value;
      ImportAppends(t', cs[1..]);
      AppendsToStep(t, c, cs[1..], ImportRun(t', cs[1..]));
    }
  }

  lemma AppendsToWiden(t: Table, out: ImportOutcome, cs: seq<Candidate>, more: seq<Candidate>)
    requires AppendsTo(t, out, cs)
    requires forall c :: c in cs ==> c in more
    ensures AppendsTo(t, out, more)
  {
    forall k | |t.rows| <= k < |out.table.rows|
      ensures RowFromCandidates(out.table.rows[k], t.lastId, more)
    {
      var r := out.table.rows[k];
      var c :| c in cs && r.address == Some(c.address) && r.source == c.source
         && r.latitude == c.latitude && r.longitude == c.longitude;
      assert c in more;
    }
  }

  /** The step of ImportAppends where the first candidate is inserted. */
  lemma AppendsToStep(t: Table, c: Candidate, rest: seq<Candidate>, out': ImportOutcome)
    requires WellFormed(t) && InsertAuto(t, c).Ok?
    requires AppendsTo(InsertAuto(t, c).value, out', rest)
    ensures AppendsTo(t, out'.(count := out'.count + 1), [c] + rest)
  {
    var t' := InsertAuto(t, c).value;
    InsertAutoFresh(t, c);
    var rows := out'.table.rows;
    var n := |t.rows|;
    assert rows[..n] == t'.rows[..n] == t.rows by {
      assert rows[..n + 1] == t'.rows;
    }
    assert RowFromCandidates(rows[n], t.lastId, [c] + rest) by {
      assert rows[n] == t'.rows[n];
    }
    AppendsToWiden(t', out', rest, [c] + rest);
  }

  /** No row from index `n` on shares its address with any row before it. */
  ghost predicate NoRepeatedAddressFrom(rows: seq<Station>, n: int)
  {
    forall i, k :: 0 <= i < k < |rows| && n <= k ==> rows[i].address != rows[k].address
  }

  /** The import never creates a row whose address is already present: each
      new row's address differs from the address of every row before it,
      whether that row existed before the run or was inserted earlier in it. */
  lemma {:induction false} ImportAddsNoDuplicate(t: Table, cs: seq<Candidate>)
    requires WellFormed(t)
    ensures NoRepeatedAddressFrom(ImportRun(t, cs).table.rows, |t.rows|)
    decreases |cs|
  {
    if cs == [] {
      return;
    }
    var c := cs[0];
    if CountAddress(t.rows, c.address) != 0 {
      assert ImportRun(t, cs) == ImportRun(t, cs[1..]);
      ImportAddsNoDuplicate(t, cs[1..]);
    } else if InsertAuto(t, c).Ok? {
      var t' := InsertAuto(t, c).value;
      InsertAutoFresh(t, c);
      ImportAddsNoDuplicate(t', cs[1..]);
      InsertedRowKept(t, c, cs[1..]);
      ImportKeepsPrefix(t', cs[1..]);
      var rows := ImportRun(t', cs[1..]).table.rows;
      assert ImportRun(t, cs).table.rows == rows;
      var n := |t.rows|;
      forall i, k | 0 <= i < k < |rows| && n <= k
        ensures rows[i].address != rows[k].address
      {
        if k == n {
          assert rows[i] == t'.rows[i] == t.rows[i];
          assert rows[k].address == Some(c.address);
        }
      }
    }
  }

  /** After an import that did not fail, every candidate's address is
      present in the table. */
  lemma {:induction false} ImportCoversCandidates(t: Table, cs: seq<Candidate>)
    requires WellFormed(t)
    requires ImportRun(t, cs).error.None?
    ensures forall c :: c in cs ==> CountAddress(ImportRun(t, cs).table.rows, c.address) != 0
    decreases |cs|
  {
    if cs == [] {
      return;
    }
    var c0 := cs[0];
    ImportRunUnfold(t, cs);
    var t1 := if CountAddress(t.rows, c0.address) != 0 then t else InsertAuto(t, c0).value;
    assert ImportRun(t, cs).table == ImportRun(t1, cs[1..]).table;
    assert CountAddress(t1.rows, c0.address) != 0 && WellFormed(t1) by {
      InsertAutoFresh(t, c0);
      if CountAddress(t.rows, c0.address) == 0 {
        assert t1.rows[|t.rows|].address == Some(c0.address);
      }
    }
    ImportCoversCandidates(t1, cs[1..]);
    PresentStaysPresent(t1, cs[1..], c0.address);
    assert forall c :: c in cs ==> c == c0 || c in cs[1..];
  }

  /** An address present before an import is still present after it. */
  lemma PresentStaysPresent(t: Table, cs: seq<Candidate>, a: string)
    requires WellFormed(t) && CountAddress(t.rows, a) != 0
    ensures CountAddress(ImportRun(t, cs).table.rows, a) != 0
  {
    var j :| 0 <= j < |t.rows| && t.rows[j].address == Some(a);
    ImportKeepsPrefix(t, cs);
    assert ImportRun(t, cs).table.rows[j] == t.rows[j];
  }


  /** When every candidate's address is already present, the import changes
      nothing and reports a count of 0. */
  lemma {:induction false} ImportOfPresentIsNoop(t: Table, cs: seq<Candidate>)
    requires forall c :: c in cs ==> CountAddress(t.rows, c.address) != 0
    ensures ImportRun(t, cs) == ImportOutcome(t, 0, None)
    decreases |cs|
  {
    if cs != [] {
      assert cs[0] in cs;
      ImportOfPresentIsNoop(t, cs[1..]);
    }
  }

  /** Running the import a second time on the same candidates, right after a
      run that did not fail, adds nothing and reports 0. */
  lemma ImportIdempotent(t: Table, cs: seq<Candidate>)
    requires WellFormed(t)
    requires ImportRun(t, cs).error.None?
    ensures var t1 := ImportRun(t, cs).table;
      ImportRun(t1, cs) == ImportOutcome(t1, 0, None)
  {
    ImportCoversCandidates(t, cs);
    ImportOfPresentIsNoop(ImportRun(t, cs).table, cs);
  }

  /** The addresses present in the table (NULL addresses excluded). */
  function Addresses(rows: seq<Station>): set<string>
  {
    set s | s in rows && s.address.Some? :: s.address.value
  }

  /** The candidates an import should insert: in order, those whose address
      is neither in `present` nor the address of an earlier candidate. */
  function FirstOccurrences(present: set<string>, cs: seq<Candidate>): (r: seq<Candidate>)
    ensures forall c :: c in r ==> c in cs && c.address !in present
    decreases |cs|
  {
    if cs == [] then []
    else if cs[0].address in present then FirstOccurrences(present, cs[1..])
    else [cs[0]] + FirstOccurrences(present + {cs[0].address}, cs[1..])
  }

  /** The rows made from candidates with consecutive ids starting at
      `first`. */
  function Numbered(first: int, cs: seq<Candidate>): seq<Station>
    decreases |cs|
  {
    if cs == [] then []
    else
      [Station(first, Some(cs[0].address), cs[0].latitude, cs[0].longitude, cs[0].source)]
        + Numbered(first + 1, cs[1..])
  }

  lemma CountAddressPresent(rows: seq<Station>, a: string)
    ensures CountAddress(rows, a) != 0 <==> a in Addresses(rows)
  {
    if a in Addresses(rows) {
      var s :| s in rows && s.address == Some(a);
      var i :| 0 <= i < |rows| && rows[i] == s;
    }
  }

  lemma AddressesAppend(rows: seq<Station>, s: Station)
    requires s.address.Some?
    ensures Addresses(rows + [s]) == Addresses(rows) + {s.address.value}
  {
    assert forall x :: x in rows + [s] <==> x in rows || x == s;
  }

  /** `out` added to `t` exactly a prefix of the rows numbered from the
      `novel` candidates, and all of them when it did not fail. */
  ghost predicate AddsPrefixOf(t: Table, out: ImportOutcome, novel: seq<Candidate>)
  {
    && out.count <= |novel|
    && (out.error.None? ==> out.count == |novel|)
    && |t.rows| <= |out.table.rows|
    && out.table.rows[|t.rows|..] == Numbered(t.lastId + 1, novel[..out.count])
  }

  /** The rows an import adds are exactly the first occurrences of the
      addresses not yet present, in candidate order, each with its own
      candidate's coordinates and source and with consecutive ids after the
      counter; an insert failure cuts that list short, and a run without
      failure inserts all of it. */
  lemma {:induction false} ImportInsertsFirstOccurrences(t: Table, cs: seq<Candidate>)
    requires WellFormed(t)
    ensures AddsPrefixOf(t, ImportRun(t, cs), FirstOccurrences(Addresses(t.rows), cs))
    decreases |cs|, 1
  {
    if cs == [] {
      return;
    }
    var c := cs[0];
    if CountAddress(t.rows, c.address) != 0 {
      var present := Addresses(t.rows);
      ImportRunUnfold(t, cs);
      assert FirstOccurrences(present, cs) == FirstOccurrences(present, cs[1..]) by {
        CountAddressPresent(t.rows, c.address);
      }
      ImportInsertsFirstOccurrences(t, cs[1..]);
    } else if InsertAuto(t, c).Ok? {
      ImportInsertStep(t, cs);
    }
  }

  /** The step of ImportInsertsFirstOccurrences where the first candidate is
      inserted. */
  lemma {:induction false} ImportInsertStep(t: Table, cs: seq<Candidate>)
    requires WellFormed(t) && cs != []
    requires CountAddress(t.rows, cs[0].address) == 0 && InsertAuto(t, cs[0]).Ok?
    ensures AddsPrefixOf(t, ImportRun(t, cs), FirstOccurrences(Addresses(t.rows), cs))
    decreases |cs|, 0
  {
    var c := cs[0];
    var t' := InsertAuto(t, c).value;
    var novel' := FirstOccurrences(Addresses(t'.rows), cs[1..]);
    assert FirstOccurrences(Addresses(t.rows), cs) == [c] + novel' by {
      CountAddressPresent(t.rows, c.address);
      AddressesAppend(t.rows, Station(t.lastId + 1, Some(c.address), c.latitude, c.longitude, c.source));
    }
    var out' := ImportRun(t', cs[1..]);
    assert ImportRun(t, cs) == out'.(count := out'.count + 1) by {
      ImportRunUnfold(t, cs);
    }
    InsertAutoFresh(t, c);
    ImportInsertsFirstOccurrences(t', cs[1..]);
    InsertedRowKept(t, c, cs[1..]);
    AddsPrefixCons(t, t', c, novel', out');
  }

  /** Bookkeeping for ImportInsertStep: a row numbered after the counter
      for `c`, followed by what the rest of the import adds, is what the
      whole import adds for `[c] + novel'`. */
  lemma AddsPrefixCons(t: Table, t': Table, c: Candidate, novel': seq<Candidate>, out': ImportOutcome)
    requires |t'.rows| == |t.rows| + 1 && t'.lastId == t.lastId + 1
    requires AddsPrefixOf(t', out', novel')
    requires out'.table.rows[|t.rows|] == Station(t.lastId + 1, Some(c.address), c.latitude, c.longitude, c.source)
    ensures AddsPrefixOf(t, out'.(count := out'.count + 1), [c] + novel')
  {
    NumberedStep(out'.table.rows, |t.rows|, t.lastId + 1, c, novel', out'.count);
  }

  lemma ImportKeepsPrefix(t: Table, cs: seq<Candidate>)
    requires WellFormed(t)
    ensures |t.rows| <= |ImportRun(t, cs).table.rows|
    ensures forall i :: 0 <= i < |t.rows| ==> ImportRun(t, cs).table.rows[i] == t.rows[i]
  {
    ImportAppends(t, cs);
    var rows := ImportRun(t, cs).table.rows;
    forall i | 0 <= i < |t.rows| ensures rows[i] == t.rows[i] {
      assert rows[..|t.rows|][i] == rows[i];
    }
  }

  /** A row inserted for the first candidate stays where it was put while
      the rest of the import runs. */
  lemma InsertedRowKept(t: Table, c: Candidate, rest: seq<Candidate>)
    requires WellFormed(t) && InsertAuto(t, c).Ok?
    ensures |t.rows| < |ImportRun(InsertAuto(t, c).value, rest).table.rows|
    ensures ImportRun(InsertAuto(t, c).value, rest).table.rows[|t.rows|]
      == Station(t.lastId + 1, Some(c.address), c.latitude, c.longitude, c.source)
  {
    var t' := InsertAuto(t, c).value;
    InsertAutoFresh(t, c);
    ImportKeepsPrefix(t', rest);
    assert t'.rows[|t.rows|] == Station(t.lastId + 1, Some(c.address), c.latitude, c.longitude, c.source);
  }

  /** Sequence bookkeeping for ImportInsertStep: a row followed by the
      numbered rest is the numbered list with the row's candidate in
      front. */
  lemma NumberedStep(rows: seq<Station>, n: nat, first: int, c: Candidate, rest: seq<Candidate>, k: nat)
    requires k <= |rest| && n + 1 <= |rows|
    requires rows[n] == Station(first, Some(c.address), c.latitude, c.longitude, c.source)
    requires rows[n + 1..] == Numbered(first + 1, rest[..k])
    ensures rows[n..] == Numbered(first, ([c] + rest)[..k + 1])
  {
    assert ([c] + rest)[..k + 1] == [c] + rest[..k];
    NumberedCons(first, c, rest[..k]);
    assert rows[n..] == [rows[n]] + rows[n + 1..];
  }

  lemma NumberedCons(first: int, c: Candidate, cs: seq<Candidate>)
    ensures Numbered(first, [c] + cs)
      == [Station(first, Some(c.address), c.latitude, c.longitude, c.source)] + Numbered(first + 1, cs)
  {
    assert ([c] + cs)[1..] == cs;
  }

  // ---------------------------------------------------------------------
  // UPDATE gas_stations SET address = ?, latitude = ?, longitude = ? WHERE id = ?

  /** The rows after the update: each row whose id matches gets the new
      address and coordinates. */
  function UpdateRows(rows: seq<Station>, id: int, address: Option<string>, lat: Coord, lon: Coord): (r: seq<Station>)
    ensures |r| == |rows|
    ensures forall i :: 0 <= i < |rows| ==>
      && r[i].id == rows[i].id
      && r[i].source == rows[i].source
      && (rows[i].id != id ==> r[i] == rows[i])
      && (rows[i].id == id ==> r[i].address == address && r[i].latitude == lat && r[i].longitude == lon)
  {
    if rows == [] then []
    else
      var s := rows[0];
      [if s.id == id then s.(address := address, latitude := lat, longitude := lon) else s]
        + UpdateRows(rows[1..], id, address, lat, lon)
  }

  /** Updating an id that no row has leaves the table as it was. */
  lemma UpdateMissingIsNoop(rows: seq<Station>, id: int, address: Option<string>, lat: Coord, lon: Coord)
    requires id !in Ids(rows)
    ensures UpdateRows(rows, id, address, lat, lon) == rows
  {
    var r := UpdateRows(rows, id, address, lat, lon);
    forall i | 0 <= i < |rows| ensures r[i] == rows[i] {
      assert rows[i] in rows;
    }
  }

  /** An update keeps the table well formed and the counter unchanged. */
  lemma UpdateKeepsWellFormed(t: Table, id: int, address: Option<string>, lat: Coord, lon: Coord)
    requires WellFormed(t)
    ensures WellFormed(Table(UpdateRows(t.rows, id, address, lat, lon), t.lastId))
  {
  }

  // ---------------------------------------------------------------------
  // DELETE FROM gas_stations WHERE id = ?

  /** The rows after deleting by id: the others, in their order. */
  function RemoveId(rows: seq<Station>, id: int): (r: seq<Station>)
    ensures |r| <= |rows|
    ensures forall s :: s in r <==> s in rows && s.id != id
  {
    if rows == [] then []
    else if rows[0].id == id then RemoveId(rows[1..], id)
    else [rows[0]] + RemoveId(rows[1..], id)
  }

  lemma IdsCons(rows: seq<Station>)
    requires rows != []
    ensures Ids(rows) == {rows[0].id} + Ids(rows[1..])
  {
    assert forall s :: s in rows <==> s == rows[0] || s in rows[1..];
  }

  /** In id order, every later row has a larger id than the first. */
  lemma HeadIdBelowTail(rows: seq<Station>)
    requires rows != [] && IdsAscending(rows)
    ensures forall s :: s in rows[1..] ==> rows[0].id < s.id
  {
    forall s | s in rows[1..] ensures rows[0].id < s.id {
      var k :| 0 <= k < |rows[1..]| && rows[1..][k] == s;
      assert rows[k + 1] == s;
    }
  }

  lemma TailAscending(rows: seq<Station>)
    requires rows != [] && IdsAscending(rows)
    ensures IdsAscending(rows[1..])
  {
    forall i, j | 0 <= i < j < |rows[1..]| ensures rows[1..][i].id < rows[1..][j].id {
      assert rows[1..][i] == rows[i + 1] && rows[1..][j] == rows[j + 1];
    }
  }

  lemma ConsAscending(s: Station, tail: seq<Station>)
    requires IdsAscending(tail)
    requires forall x :: x in tail ==> s.id < x.id
    ensures IdsAscending([s] + tail)
  {
    var r := [s] + tail;
    forall i, j | 0 <= i < j < |r| ensures r[i].id < r[j].id {
      assert r[j] == tail[j - 1];
      if i > 0 {
        assert r[i] == tail[i - 1];
      }
    }
  }

  /** Deleting by id keeps the rows in id order. */
  lemma {:induction false} RemoveIdKeepsOrder(rows: seq<Station>, id: int)
    requires IdsAscending(rows)
    ensures IdsAscending(RemoveId(rows, id))
  {
    if rows != [] {
      TailAscending(rows);
      RemoveIdKeepsOrder(rows[1..], id);
      if rows[0].id != id {
        var tail := RemoveId(rows[1..], id);
        HeadIdBelowTail(rows);
        assert forall x :: x in tail ==> x in rows[1..];
        ConsAscending(rows[0], tail);
      }
    }
  }

  /** With ids unique, deleting removes exactly one row when the id is
      present and none otherwise. */
  lemma {:induction false} RemoveIdCount(rows: seq<Station>, id: int)
    requires IdsAscending(rows)
    ensures |RemoveId(rows, id)| == if id in Ids(rows) then |rows| - 1 else |rows|
  {
    if rows != [] {
      TailAscending(rows);
      RemoveIdCount(rows[1..], id);
      IdsCons(rows);
      if rows[0].id == id {
        HeadIdBelowTail(rows);
        assert id !in Ids(rows[1..]);
      }
    }
  }

  /** Deleting an id that no row has leaves the table as it was. */
  lemma {:induction false} RemoveMissingIsNoop(rows: seq<Station>, id: int)
    requires id !in Ids(rows)
    ensures RemoveId(rows, id) == rows
  {
    if rows != [] {
      assert rows[0] in rows;
      assert Ids(rows[1..]) <= Ids(rows) by {
        forall s | s in rows[1..] ensures s in rows { }
      }
      RemoveMissingIsNoop(rows[1..], id);
      assert rows == [rows[0]] + rows[1..];
    }
  }

  /** A delete by id keeps the table well formed and the counter unchanged. */
  lemma RemoveKeepsWellFormed(t: Table, id: int)
    requires WellFormed(t)
    ensures WellFormed(Table(RemoveId(t.rows, id), t.lastId))
  {
    RemoveIdKeepsOrder(t.rows, id);
    var r := RemoveId(t.rows, id);
    forall i | 0 <= i < |r| ensures 1 <= r[i].id <= t.lastId {
      assert r[i] in t.rows;
    }
  }
}
