/** PatentRepository.cs: the PATENTS table as PermissionService sees it. Its
    writes ignore the -1 a failing statement reports: the table is left as
    it was and nothing is thrown. */
module PatentRepositories {
  import opened Outcomes
  import opened Sorting
  import opened Store
  import C = Components

  /** The Patents a reader over the given rows yields, in row order. */
  function PatentValues(rows: seq<Row>): (r: seq<C.Component>)
    ensures |r| == |rows|
    ensures forall i :: 0 <= i < |rows| ==> r[i] == C.Patent(rows[i].id, rows[i].name)
  {
    seq(|rows|, i requires 0 <= i < |rows| => C.Patent(rows[i].id, rows[i].name))
  }

  /** A row is read exactly when its Patent is among the values. */
  lemma PatentValuesMembers(rows: seq<Row>, row: Row)
    ensures row in rows <==> C.Patent(row.id, row.name) in PatentValues(rows)
  {
    var r := PatentValues(rows);
    if C.Patent(row.id, row.name) in r {
      var i :| 0 <= i < |r| && r[i] == C.Patent(row.id, row.name);
      assert rows[i] == row;
    }
    if row in rows {
      var i :| 0 <= i < |rows| && rows[i] == row;
      assert r[i] == C.Patent(row.id, row.name);
    }
  }

  lemma PatentValuesPrefix(rows: seq<Row>, i: nat)
    requires i < |rows|
    ensures PatentValues(rows[..i + 1]) == PatentValues(rows[..i]) + [C.Patent(rows[i].id, rows[i].name)]
  {
  }

  class PatentRepository {
    const db: Database

    constructor (db: Database)
      ensures this.db == db
    {
      this.db := db;
    }

    /** SELECT Id, Name FROM PATENTS ORDER BY Name. */
    function AllPatents(): (r: seq<C.Component>)
      reads db
      ensures |r| == |db.patents|
      ensures SortedBy(r, (c: C.Component) => c.name)
      ensures forall row :: row in db.patents <==> C.Patent(row.id, row.name) in r
      ensures forall i :: 0 <= i < |r| ==> r[i].Patent?
    {
      var sorted := SortBy(db.patents, RowName);
      var r := PatentValues(sorted);
      forall row ensures row in db.patents <==> C.Patent(row.id, row.name) in r {
        assert row in db.patents <==> row in multiset(sorted);
        if C.Patent(row.id, row.name) in r {
          var i :| 0 <= i < |r| && r[i] == C.Patent(row.id, row.name);
          assert sorted[i] == row;
        }
        if row in sorted {
          var i :| 0 <= i < |sorted| && sorted[i] == row;
          assert r[i] == C.Patent(row.id, row.name);
        }
      }
      r
    }

    /** GetAll: the reader loop that appends one Patent per row. */
    method GetAll() returns (r: seq<C.Component>)
      ensures r == AllPatents()
    {
      var rows := SortBy(db.patents, RowName);
      r := [];
      for i := 0 to |rows|
        invariant r == PatentValues(rows[..i])
      {
        PatentValuesPrefix(rows, i);
        r := r + [C.Patent(rows[i].id, rows[i].name)];
      }
      assert rows[..|rows|] == rows;
    }

    /** GetById: the first row with that Id, or null. */
    function GetById(id: C.Guid): (r: Option<C.Component>)
      reads db
      ensures r.None? <==> forall i :: 0 <= i < |db.patents| ==> db.patents[i].id != id
      ensures r.Some? ==> r.value.Patent? && r.value.id == id && Store.Row(id, r.value.name) in db.patents
    {
      match FindById(db.patents, id)
      case None => None
      case Some(row) => Some(C.Patent(row.id, row.name))
    }

    /** INSERT INTO PATENTS; a failure is swallowed. */
    method Create(id: C.Guid, name: string, fails: bool)
      modifies db`patents
      ensures fails ==> db.patents == old(db.patents)
      ensures !fails ==> db.patents == old(db.patents) + [Row(id, name)]
    {
      if !fails {
        db.patents := db.patents + [Row(id, name)];
      }
    }

    /** UPDATE PATENTS SET Name = @Name WHERE Id = @Id; a failure is swallowed. */
    method Update(id: C.Guid, name: string, fails: bool)
      modifies db`patents
      ensures fails ==> db.patents == old(db.patents)
      ensures !fails ==> db.patents == Renamed(old(db.patents), id, name)
    {
      if !fails {
        db.patents := Renamed(db.patents, id, name);
      }
    }

    /** DELETE FROM PATENTS WHERE Id = @Id; a failure is swallowed. */
    method Delete(id: C.Guid, fails: bool)
      modifies db`patents
      ensures fails ==> db.patents == old(db.patents)
      ensures !fails ==> db.patents == WithoutId(old(db.patents), id)
    {
      if !fails {
        db.patents := WithoutId(db.patents, id);
      }
    }
  }
}
