/** FamilyRepository.cs: the FAMILIES table and the PATENTS_FAMILIES
    relation. Unlike the patent store, every write throws when its statement
    reports -1. */
module FamilyRepositories {
  import opened Outcomes
  import opened Text
  import opened Sorting
  import opened Store
  import opened PatentRepositories
  import C = Components
  import F = Families

  /** The Families a reader over the given rows yields: children not filled. */
  function FamilyValues(rows: seq<Row>): (r: seq<C.Component>)
    ensures |r| == |rows|
    ensures forall i :: 0 <= i < |rows| ==> r[i] == C.Family(rows[i].id, rows[i].name, [])
  {
    seq(|rows|, i requires 0 <= i < |rows| => C.Family(rows[i].id, rows[i].name, []))
  }

  lemma FamilyValuesPrefix(rows: seq<Row>, i: nat)
    requires i < |rows|
    ensures FamilyValues(rows[..i + 1]) == FamilyValues(rows[..i]) + [C.Family(rows[i].id, rows[i].name, [])]
  {
  }

  /** The PATENTS rows linked to one family, ORDER BY Name. */
  function LinkedPatentRows(patents: seq<Row>, links: set<(C.Guid, C.Guid)>, familyId: C.Guid): (r: seq<Row>)
    ensures SortedBy(r, RowName)
    ensures forall row :: row in r <==> row in patents && (row.id, familyId) in links
  {
    var linked := Where(patents, (p: Row) => (p.id, familyId) in links);
    WhereMembers(patents, (p: Row) => (p.id, familyId) in links);
    assert forall row :: row in linked <==> row in multiset(SortBy(linked, RowName));
    SortBy(linked, RowName)
  }

  /** A patent is read for the family exactly when its row is linked to it. */
  lemma LinkedPatentRowsMembers(patents: seq<Row>, links: set<(C.Guid, C.Guid)>, familyId: C.Guid, row: Row)
    ensures row in patents && (row.id, familyId) in links <==>
            C.Patent(row.id, row.name) in PatentValues(LinkedPatentRows(patents, links, familyId))
  {
    var linked := Where(patents, (p: Row) => (p.id, familyId) in links);
    var sorted := LinkedPatentRows(patents, links, familyId);
    assert row in linked <==> row in multiset(sorted);
    PatentValuesMembers(sorted, row);
    if row in patents && (row.id, familyId) in links {
      var i :| 0 <= i < |patents| && patents[i] == row;
    }
  }

  class FamilyRepository {
    const db: Database

    constructor (db: Database)
      ensures this.db == db
    {
      this.db := db;
    }

    /** SELECT Id, Name, Description FROM FAMILIES ORDER BY Name: one Family
        per row, ordered by name, none with its patents filled in. */
    function AllFamilies(): (r: seq<C.Component>)
      reads db
      ensures |r| == |db.families|
      ensures SortedBy(r, (c: C.Component) => c.name)
      ensures forall row :: row in db.families <==> C.Family(row.id, row.name, []) in r
      ensures forall i :: 0 <= i < |r| ==> r[i].Family? && r[i].children == []
    {
      var sorted := SortBy(db.families, RowName);
      var r := FamilyValues(sorted);
      forall row ensures row in db.families <==> C.Family(row.id, row.name, []) in r {
        assert row in db.families <==> row in multiset(sorted);
        if C.Family(row.id, row.name, []) in r {
          var i :| 0 <= i < |r| && r[i] == C.Family(row.id, row.name, []);
          assert sorted[i] == row;
        }
        if row in sorted {
          var i :| 0 <= i < |sorted| && sorted[i] == row;
          assert r[i] == C.Family(row.id, row.name, []);
        }
      }
      r
    }

    /** GetAll: the reader loop that appends one Family per row. */
    method GetAll() returns (r: seq<C.Component>)
      ensures r == AllFamilies()
    {
      var rows := SortBy(db.families, RowName);
      r := [];
      for i := 0 to |rows|
        invariant r == FamilyValues(rows[..i])
      {
        FamilyValuesPrefix(rows, i);
        r := r + [C.Family(rows[i].id, rows[i].name, [])];
      }
      assert rows[..|rows|] == rows;
    }

    /** The JOIN of PATENTS with PATENTS_FAMILIES for one family, ORDER BY
        p.Name: the patents linked to it, each once per PATENTS row. */
    function FamilyPatents(familyId: C.Guid): (r: seq<C.Component>)
      reads db
      ensures SortedBy(r, (c: C.Component) => c.name)
      ensures forall i :: 0 <= i < |r| ==> r[i].Patent?
      ensures forall row ::
                (row in db.patents && (row.id, familyId) in db.patentFamilies) <==> C.Patent(row.id, row.name) in r
    {
      var links := db.patentFamilies;
      var sorted := LinkedRows(familyId);
      var r := PatentValues(sorted);
      forall row ensures row in db.patents && (row.id, familyId) in links <==> C.Patent(row.id, row.name) in r {
        LinkedPatentRowsMembers(db.patents, links, familyId, row);
      }
      r
    }

    /** The rows the JOIN of FillFamilyPatents and GetFamilyPatents reads. */
    function LinkedRows(familyId: C.Guid): seq<Row>
      reads db
    {
      LinkedPatentRows(db.patents, db.patentFamilies, familyId)
    }

    /** GetFamilyPatents: the reader loop that collects the linked patents. */
    method GetFamilyPatents(familyId: C.Guid) returns (r: seq<C.Component>)
      ensures r == FamilyPatents(familyId)
    {
      var rows := LinkedRows(familyId);
      r := [];
      for i := 0 to |rows|
        invariant r == PatentValues(rows[..i])
      {
        PatentValuesPrefix(rows, i);
        r := r + [C.Patent(rows[i].id, rows[i].name)];
      }
      assert rows[..|rows|] == rows;
    }

    /** FillFamilyPatents: AddChild for every linked patent, in name order,
        after whatever children the family already has. */
    method FillFamilyPatents(family: F.Family)
      modifies family`children
      ensures family.children == old(family.children) + FamilyPatents(family.id)
    {
      var rows := LinkedRows(family.id);
      for i := 0 to |rows|
        invariant family.children == old(family.children) + PatentValues(rows[..i])
      {
        PatentValuesPrefix(rows, i);
        family.AddChild(C.Patent(rows[i].id, rows[i].name));
      }
      assert rows[..|rows|] == rows;
    }

    /** GetById: a new Family filled with its patents, or null. */
    method GetById(id: C.Guid) returns (r: F.Family?)
      ensures r == null <==> FindById(db.families, id).None?
      ensures r != null ==> fresh(r) && r.id == id && Row(id, r.name) in db.families
                            && r.children == FamilyPatents(id)
    {
      match FindById(db.families, id)
      case None =>
        return null;
      case Some(row) =>
        r := new F.Family(row.id, row.name);
        FillFamilyPatents(r);
    }

    /** GetByName: the first family whose name matches under the
        case-insensitive collation, filled with its patents, or null. */
    method GetByName(name: string) returns (r: F.Family?)
      ensures r == null <==> FindByName(db.families, name).None?
      ensures r != null ==> fresh(r) && EqualsIgnoreCase(r.name, name) && Row(r.id, r.name) in db.families
                            && r.children == FamilyPatents(r.id)
    {
      match FindByName(db.families, name)
      case None =>
        return null;
      case Some(row) =>
        r := new F.Family(row.id, row.name);
        FillFamilyPatents(r);
    }

    /** Create: INSERT INTO FAMILIES, throwing when the store fails. Only the
        family's Id and Name are written. */
    method Create(id: C.Guid, name: string, fails: bool) returns (r: Result<()>)
      modifies db`families
      ensures fails <==> r == Failure(StoreFailure)
      ensures fails ==> db.families == old(db.families)
      ensures !fails ==> r.Success? && db.families == old(db.families) + [Row(id, name)]
    {
      if fails {
        return Failure(StoreFailure);
      }
      db.families := db.families + [Row(id, name)];
      return Success(());
    }

    /** Update: only the Name column of the row with that Id changes. */
    method Update(id: C.Guid, name: string, fails: bool) returns (r: Result<()>)
      modifies db`families
      ensures fails <==> r == Failure(StoreFailure)
      ensures fails ==> db.families == old(db.families)
      ensures !fails ==> r.Success? && db.families == Renamed(old(db.families), id, name)
    {
      if fails {
        return Failure(StoreFailure);
      }
      db.families := Renamed(db.families, id, name);
      return Success(());
    }

    /** Delete: only FAMILIES rows go; PATENTS_FAMILIES is not touched. */
    method Delete(id: C.Guid, fails: bool) returns (r: Result<()>)
      modifies db`families
      ensures fails <==> r == Failure(StoreFailure)
      ensures fails ==> db.families == old(db.families)
      ensures !fails ==> r.Success? && db.families == WithoutId(old(db.families), id)
    {
      if fails {
        return Failure(StoreFailure);
      }
      db.families := WithoutId(db.families, id);
      return Success(());
    }

    /** AssignPatentToFamily: check first, then insert. An existing pair is
        left alone; otherwise exactly that pair is added, or the call throws. */
    method AssignPatentToFamily(patentId: C.Guid, familyId: C.Guid, fails: bool) returns (r: Result<()>)
      modifies db`patentFamilies
      ensures (patentId, familyId) in old(db.patentFamilies) ==>
                r.Success? && db.patentFamilies == old(db.patentFamilies)
      ensures (patentId, familyId) !in old(db.patentFamilies) && fails ==>
                r == Failure(StoreFailure) && db.patentFamilies == old(db.patentFamilies)
      ensures (patentId, familyId) !in old(db.patentFamilies) && !fails ==>
                r.Success? && db.patentFamilies == old(db.patentFamilies) + {(patentId, familyId)}
    {
      if (patentId, familyId) in db.patentFamilies {
        return Success(());
      }
      if fails {
        return Failure(StoreFailure);
      }
      db.patentFamilies := db.patentFamilies + {(patentId, familyId)};
      return Success(());
    }

    /** RemovePatentFromFamily: exactly that pair goes, or the call throws. */
    method RemovePatentFromFamily(patentId: C.Guid, familyId: C.Guid, fails: bool) returns (r: Result<()>)
      modifies db`patentFamilies
      ensures fails <==> r == Failure(StoreFailure)
      ensures fails ==> db.patentFamilies == old(db.patentFamilies)
      ensures !fails ==> r.Success? && db.patentFamilies == old(db.patentFamilies) - {(patentId, familyId)}
    {
      if fails {
        return Failure(StoreFailure);
      }
      db.patentFamilies := db.patentFamilies - {(patentId, familyId)};
      return Success(());
    }
  }

  /** Filling the same family twice lists every linked patent twice. */
  method FillTwiceDuplicates(repo: FamilyRepository, family: F.Family)
    modifies family`children
    ensures family.children == old(family.children) + repo.FamilyPatents(family.id) + repo.FamilyPatents(family.id)
  {
    repo.FillFamilyPatents(family);
    repo.FillFamilyPatents(family);
  }

  /** Assigning the same pair twice has the effect of assigning it once. */
  method AssignTwiceAsOnce(repo: FamilyRepository, patentId: C.Guid, familyId: C.Guid)
    modifies repo.db`patentFamilies
    ensures repo.db.patentFamilies == old(repo.db.patentFamilies) + {(patentId, familyId)}
  {
    var first := repo.AssignPatentToFamily(patentId, familyId, false);
    var second := repo.AssignPatentToFamily(patentId, familyId, false);
  }

  /** Assigning a new pair and removing it again restores the relation. */
  method AssignThenRemove(repo: FamilyRepository, patentId: C.Guid, familyId: C.Guid)
    modifies repo.db`patentFamilies
    requires (patentId, familyId) !in repo.db.patentFamilies
    ensures repo.db.patentFamilies == old(repo.db.patentFamilies)
  {
    var added := repo.AssignPatentToFamily(patentId, familyId, false);
    var removed := repo.RemovePatentFromFamily(patentId, familyId, false);
  }
}
