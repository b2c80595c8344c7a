/** The in-memory `gas_stations` table and the route handlers that change
    it, each run to completion on its own. */
module StationStore {
  import opened StationModel
  import opened FeatureMapping
  import opened TableSpec

  class StationTable {
    /** The rows, in the order `SELECT *` returns them. */
    var rows: seq<Station>
    /** The AUTOINCREMENT counter kept in `sqlite_sequence`. */
    var lastId: int

    function Snapshot(): Table
      reads this
    {
      Table(rows, lastId)
    }

    ghost predicate Valid()
      reads this
    {
      WellFormed(Snapshot())
    }

    /** `CREATE TABLE gas_stations (...)` on a fresh in-memory database. */
    constructor ()
      ensures Valid()
      ensures rows == [] && lastId == 0
    {
      rows := [];
      lastId := 0;
    }

    /** GET /api/gas-stations: every row, in ascending id order. */
    method List() returns (r: seq<Station>)
      requires Valid()
      ensures r == rows
      ensures forall i, j :: 0 <= i < j < |r| ==> r[i].id < r[j].id
    {
      r := rows;
    }

    /** The import loop of GET /api/external-gas-stations: for each candidate
        in order, count the rows with its address and insert it (with an
        AUTOINCREMENT id) only when there are none. Returns the number of
        inserted rows, or the first insert error; rows inserted before an
        error stay. */
    method ImportCandidates(cs: seq<Candidate>) returns (r: Result<nat, Failure>)
      requires Valid()
      modifies this
      ensures Valid()
      ensures var out := ImportRun(old(Snapshot()), cs);
        && Snapshot() == out.table
        && r == (if out.error.Some? then Err(out.error.value) else Ok(out.count))
    {
      ghost var t0 := Snapshot();
      var count := 0;
      var i := 0;
      while i < |cs|
        invariant 0 <= i <= |cs|
        invariant WellFormed(Snapshot())
        invariant ImportRun(t0, cs) == var rest := ImportRun(Snapshot(), cs[i..]); rest.(count := rest.count + count)
      {
        var c := cs[i];
        ghost var before := Snapshot();
        if CountAddress(rows, c.address) == 0 {
          if lastId >= MaxRowId {
            ImportStopsWhenFull(before, cs[i..]);
            return Err(DatabaseFull);
          }
          ImportInsertsHead(before, cs[i..]);
          InsertAutoFresh(before, c);
          lastId := lastId + 1;
          rows := rows + [Station(lastId, Some(c.address), c.latitude, c.longitude, c.source)];
          count := count + 1;
          assert Snapshot() == InsertAuto(before, c).value;
        } else {
          ImportSkipsHead(before, cs[i..]);
        }
        assert cs[i..][1..] == cs[i + 1..];
        i := i + 1;
      }
      r := Ok(count);
    }

    /** GET /api/external-gas-stations, given the upstream features: map them
        to candidates (a malformed feature fails before anything is
        inserted), then run the import loop. */
    method ImportExternal(features: seq<Feature>) returns (r: Result<nat, Failure>)
      requires Valid()
      modifies this
      ensures Valid()
      ensures MapFeatures(features).Err? ==> r == Err(TypeError) && rows == old(rows) && lastId == old(lastId)
      ensures MapFeatures(features).Ok? ==>
        var out := ImportRun(old(Snapshot()), MapFeatures(features).value);
        && Snapshot() == out.table
        && r == (if out.error.Some? then Err(out.error.value) else Ok(out.count))
    {
      var mapped := MapFeatures(features);
      if mapped.Err? {
        return Err(mapped.error);
      }
      r := ImportCandidates(mapped.value);
    }

    /** POST /api/gas-stations: insert the body's fields with id
        `MAX(id) + 1` (1 on an empty table) and source `'user'`; returns the
        new id. */
    method Create(address: Option<string>, latitude: Coord, longitude: Coord) returns (r: Result<int, Failure>)
      requires Valid()
      modifies this
      ensures Valid()
      ensures var m := InsertManual(old(Snapshot()), address, latitude, longitude);
        && (m.Ok? ==> r == Ok(m.value.1) && Snapshot() == m.value.0)
        && (m.Err? ==> r == Err(m.error) && rows == old(rows) && lastId == old(lastId))
    {
      ghost var m := InsertManual(Snapshot(), address, latitude, longitude);
      NextManualIdFresh(Snapshot());
      var nextId := NextManualId(rows);
      if nextId > MaxRowId {
        return Err(DatatypeMismatch);
      }
      rows := rows + [Station(nextId, address, latitude, longitude, User)];
      if lastId < nextId {
        lastId := nextId;
      }
      r := Ok(nextId);
      assert Snapshot() == m.value.0;
    }

    /** PUT /api/gas-stations/:id: set address and coordinates of the row
        with that id. An id no row has changes nothing and still succeeds. */
    method Update(id: int, address: Option<string>, latitude: Coord, longitude: Coord)
      requires Valid()
      modifies this
      ensures Valid()
      ensures rows == UpdateRows(old(rows), id, address, latitude, longitude)
      ensures lastId == old(lastId)
    {
      UpdateKeepsWellFormed(Snapshot(), id, address, latitude, longitude);
      rows := UpdateRows(rows, id, address, latitude, longitude);
    }

    /** DELETE /api/gas-stations/:id: remove the row with that id. An id no
        row has changes nothing and still succeeds. The counter is kept, so
        an AUTOINCREMENT id is never handed out twice. */
    method Delete(id: int)
      requires Valid()
      modifies this
      ensures Valid()
      ensures rows == RemoveId(old(rows), id)
      ensures lastId == old(lastId)
    {
      RemoveKeepsWellFormed(Snapshot(), id);
      rows := RemoveId(rows, id);
    }

    /** DELETE /api/gas-stations: remove every row; the AUTOINCREMENT counter
        is kept. */
    method DeleteAll()
      requires Valid()
      modifies this
      ensures Valid()
      ensures rows == [] && lastId == old(lastId)
    {
      rows := [];
    }
  }
}
