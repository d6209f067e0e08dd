/** The SQL tables behind the repositories, reduced to in-memory rows. A
    statement either runs (every row it names is changed) or reports -1;
    whether it fails is a parameter of each writing operation. */
module Store {
  import opened Outcomes
  import opened Text
  import C = Components

  /** A PATENTS or FAMILIES row: the Id and Name columns the code reads. */
  datatype Row = Row(id: C.Guid, name: string)

  /** A USERS row; IsActive and Role may be database-null on the way in,
      IsActive is read as false and Role as null then. */
  datatype UserRow = UserRow(id: C.Guid, name: string, password: string, isActive: bool, role: Option<string>)

  class Database {
    var patents: seq<Row>
    var families: seq<Row>
    /** PATENTS_FAMILIES as (PatentId, FamilyId) pairs. */
    var patentFamilies: set<(C.Guid, C.Guid)>
    var users: seq<UserRow>
    /** USERS_FAMILIES as (UserId, FamilyId) pairs. */
    var userFamilies: set<(C.Guid, C.Guid)>

    constructor ()
      ensures patents == [] && families == [] && patentFamilies == {}
      ensures users == [] && userFamilies == {}
    {
      patents := [];
      families := [];
      patentFamilies := {};
      users := [];
      userFamilies := {};
    }
  }

  function RowName(row: Row): string { row.name }

  /** The first row a reader yields for a WHERE clause, or none. */
  function FindFirst<T>(rows: seq<T>, p: T -> bool): (r: Option<T>)
    ensures r.None? <==> forall i :: 0 <= i < |rows| ==> !p(rows[i])
    ensures r.Some? ==> exists i :: 0 <= i < |rows| && rows[i] == r.value && p(rows[i])
                                    && forall j :: 0 <= j < i ==> !p(rows[j])
  {
    if rows == [] then None
    else if p(rows[0]) then Some(rows[0])
    else
      var r := FindFirst(rows[1..], p);
      assert r.Some? ==> exists i :: 0 <= i < |rows| && rows[i] == r.value && p(rows[i])
                                     && forall j :: 0 <= j < i ==> !p(rows[j]) by {
        if r.Some? {
          var i :| 0 <= i < |rows[1..]| && rows[1..][i] == r.value && p(rows[1..][i])
                   && forall j :: 0 <= j < i ==> !p(rows[1..][j]);
          assert rows[i + 1] == rows[1..][i];
          assert forall j :: 1 <= j < i + 1 ==> rows[j] == rows[1..][j - 1];
        }
      }
      r
  }

  /** The rows a WHERE clause keeps, in table order. */
  function Where<T>(rows: seq<T>, p: T -> bool): (r: seq<T>)
    ensures |r| <= |rows|
    ensures forall i :: 0 <= i < |r| ==> p(r[i]) && r[i] in rows
    ensures forall i :: 0 <= i < |rows| && p(rows[i]) ==> rows[i] in r
  {
    if rows == [] then []
    else
      var rest := Where(rows[1..], p);
      assert forall i :: 0 <= i < |rest| ==> rest[i] in rows by {
        forall i | 0 <= i < |rest| ensures rest[i] in rows {
          assert rest[i] in rows[1..];
        }
      }
      assert forall i :: 1 <= i < |rows| && p(rows[i]) ==> rows[i] in rest by {
        forall i | 1 <= i < |rows| && p(rows[i]) ensures rows[i] in rest {
          assert rows[i] == rows[1..][i - 1];
        }
      }
      if p(rows[0]) then [rows[0]] + rest else rest
  }

  /** Where keeps exactly the rows the clause holds of. */
  lemma WhereMembers<T>(rows: seq<T>, p: T -> bool)
    ensures forall x :: x in Where(rows, p) <==> x in rows && p(x)
  {
    forall x | x in rows && p(x) ensures x in Where(rows, p) {
      var i :| 0 <= i < |rows| && rows[i] == x;
    }
  }

  /** Where keeps a single row exactly when the clause holds of it. */
  lemma WhereSingle<T>(x: T, p: T -> bool)
    ensures Where([x], p) == if p(x) then [x] else []
  {
    assert [x][1..] == [];
  }

  /** Where distributes over concatenation: rows keep their table order and
      their multiplicity. */
  lemma {:induction false} WhereAppend<T>(a: seq<T>, b: seq<T>, p: T -> bool)
    ensures Where(a + b, p) == Where(a, p) + Where(b, p)
  {
    if a == [] {
      assert a + b == b;
    } else {
      assert (a + b)[0] == a[0];
      assert (a + b)[1..] == a[1..] + b;
      WhereAppend(a[1..], b, p);
    }
  }

  /** WHERE Id = @Id on PATENTS or FAMILIES. */
  function FindById(rows: seq<Row>, id: C.Guid): (r: Option<Row>)
    ensures r.None? <==> forall i :: 0 <= i < |rows| ==> rows[i].id != id
    ensures r.Some? ==> r.value in rows && r.value.id == id
  {
    FindFirst(rows, (row: Row) => row.id == id)
  }

  /** WHERE Name = @Name under the server's default, case-insensitive
      collation. */
  function FindByName(rows: seq<Row>, name: string): (r: Option<Row>)
    ensures r.None? <==> forall i :: 0 <= i < |rows| ==> !EqualsIgnoreCase(rows[i].name, name)
    ensures r.Some? ==> r.value in rows && EqualsIgnoreCase(r.value.name, name)
  {
    FindFirst(rows, (row: Row) => EqualsIgnoreCase(row.name, name))
  }

  /** UPDATE ... SET Name = @Name WHERE Id = @Id. */
  function Renamed(rows: seq<Row>, id: C.Guid, name: string): (r: seq<Row>)
    ensures |r| == |rows|
  {
    seq(|rows|, i requires 0 <= i < |rows| => if rows[i].id == id then Row(id, name) else rows[i])
  }

  /** After the rename the row with that Id carries the new name; rows with
      other Ids are untouched, and a missing Id changes nothing. */
  lemma RenamedFind(rows: seq<Row>, id: C.Guid, name: string, other: C.Guid)
    requires other != id
    ensures FindById(rows, id).Some? ==> FindById(Renamed(rows, id, name), id) == Some(Row(id, name))
    ensures FindById(rows, id).None? ==> Renamed(rows, id, name) == rows
    ensures FindById(Renamed(rows, id, name), other) == FindById(rows, other)
  {
    var r := Renamed(rows, id, name);
    if FindById(rows, id).None? {
      assert forall i :: 0 <= i < |rows| ==> r[i] == rows[i];
    }
    assert forall i :: 0 <= i < |rows| ==> (r[i].id == other <==> rows[i].id == other);
    FindFirstSameUpTo(rows, r, (row: Row) => row.id == other);
  }

  /** The row at the first matching position is the first match. */
  lemma FindFirstAt<T>(rows: seq<T>, p: T -> bool, i: nat)
    requires i < |rows| && p(rows[i])
    requires forall j :: 0 <= j < i ==> !p(rows[j])
    ensures FindFirst(rows, p) == Some(rows[i])
  {
    var r := FindFirst(rows, p);
    var k :| 0 <= k < |rows| && rows[k] == r.value && p(rows[k]) && forall j :: 0 <= j < k ==> !p(rows[j]);
    assert !(k < i) && !(i < k);
  }

  /** Rows appended after a match do not change the first match. */
  lemma {:induction false} FindFirstAppend<T>(a: seq<T>, b: seq<T>, p: T -> bool)
    requires FindFirst(a, p).Some?
    ensures FindFirst(a + b, p) == FindFirst(a, p)
  {
    assert (a + b)[0] == a[0];
    if !p(a[0]) {
      assert (a + b)[1..] == a[1..] + b;
      FindFirstAppend(a[1..], b, p);
    }
  }

  /** Two tables that agree on which rows match, and on the matching rows,
      give the same first match. */
  lemma {:induction false} FindFirstSameUpTo<T>(a: seq<T>, b: seq<T>, p: T -> bool)
    requires |a| == |b|
    requires forall i :: 0 <= i < |a| ==> (p(a[i]) <==> p(b[i]))
    requires forall i :: 0 <= i < |a| && p(a[i]) ==> a[i] == b[i]
    ensures FindFirst(a, p) == FindFirst(b, p)
  {
    if a != [] {
      FindFirstSameUpTo(a[1..], b[1..], p);
    }
  }

  /** DELETE FROM ... WHERE Id = @Id. */
  function WithoutId(rows: seq<Row>, id: C.Guid): (r: seq<Row>)
    ensures forall x :: x in r <==> x in rows && x.id != id
  {
    Where(rows, (row: Row) => row.id != id)
  }
}
