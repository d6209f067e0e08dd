/** UserService.cs over the user store of UsersRepository.cs: the USERS table
    and the USERS_FAMILIES relation, with a user's roles (families) read
    through the family repository. The user store swallows a failing
    statement: the table is left as it was and nothing is thrown. */
module UserServices {
  import opened Outcomes
  import opened Text
  import opened Sequences
  import opened Store
  import opened FamilyRepositories
  import C = Components
  import F = Families
  import U = Users

  /** SELECT * FROM USERS WHERE Id = @Id: the first such row, if any. */
  function FindUserById(rows: seq<UserRow>, id: C.Guid): (r: Option<UserRow>)
    ensures r.None? <==> forall i :: 0 <= i < |rows| ==> rows[i].id != id
    ensures r.Some? ==> r.value in rows && r.value.id == id
  {
    FindFirst(rows, (u: UserRow) => u.id == id)
  }

  /** SELECT * FROM USERS WHERE Name = @Name under the case-insensitive
      collation: the first such row, if any. */
  function FindUserByName(rows: seq<UserRow>, name: string): (r: Option<UserRow>)
    ensures r.None? <==> forall i :: 0 <= i < |rows| ==> !EqualsIgnoreCase(rows[i].name, name)
    ensures r.Some? ==> r.value in rows && EqualsIgnoreCase(r.value.name, name)
  {
    FindFirst(rows, (u: UserRow) => EqualsIgnoreCase(u.name, name))
  }

  /** The FAMILIES rows joined with USERS_FAMILIES for one user, in table
      order: the roles FillUserFamily adds. */
  function LinkedFamilies(families: seq<Row>, links: set<(C.Guid, C.Guid)>, userId: C.Guid): (r: seq<Row>)
    ensures forall row :: row in r <==> row in families && (userId, row.id) in links
  {
    var r := Where(families, (f: Row) => (userId, f.id) in links);
    forall row | row in families && (userId, row.id) in links ensures row in r {
      var i :| 0 <= i < |families| && families[i] == row;
    }
    r
  }

  /** DELETE FROM USERS WHERE Id = @Id. */
  function WithoutUser(rows: seq<UserRow>, id: C.Guid): (r: seq<UserRow>)
    ensures forall x :: x in r <==> x in rows && x.id != id
  {
    var r := Where(rows, (u: UserRow) => u.id != id);
    forall x | x in rows && x.id != id ensures x in r {
      var i :| 0 <= i < |rows| && rows[i] == x;
    }
    r
  }

  /** SELECT * FROM USERS WHERE IsActive = 1, in table order. */
  function ActiveUsers(rows: seq<UserRow>): (r: seq<UserRow>)
    ensures forall x :: x in r <==> x in rows && x.isActive
  {
    var r := Where(rows, (u: UserRow) => u.isActive);
    forall x | x in rows && x.isActive ensures x in r {
      var i :| 0 <= i < |rows| && rows[i] == x;
    }
    r
  }

  /** No two USERS rows share an Id. */
  predicate UniqueUserIds(rows: seq<UserRow>) {
    forall i, j :: 0 <= i < j < |rows| ==> rows[i].id != rows[j].id
  }

  /** The USERS row the Create statement writes for u. */
  function RowOf(u: U.User): UserRow
    reads u
  {
    UserRow(u.id, u.name, u.password, u.isActive, u.role)
  }

  /** The object carries exactly the columns of the row. */
  predicate Mirrors(u: U.User, row: UserRow)
    reads u
  {
    RowOf(u) == row
  }

  class UserService {
    const db: Database
    /** The family repository UsersRepository creates for itself. */
    const familyRepository: FamilyRepository

    predicate Valid() {
      familyRepository.db == db
    }

    constructor (db: Database)
      ensures this.db == db && Valid()
    {
      this.db := db;
      familyRepository := new FamilyRepository(db);
    }

    /** The role one joined row becomes: the family with its patents. */
    function Role(row: Row): (c: C.Component)
      reads familyRepository.db
      ensures c.Family? && c.id == row.id && c.name == row.name
    {
      C.Family(row.id, row.name, familyRepository.FamilyPatents(row.id))
    }

    /** One role per joined row, in the order of the rows. */
    function RolesFrom(rows: seq<Row>): (r: seq<C.Component>)
      reads familyRepository.db
      ensures |r| == |rows|
    {
      if rows == [] then [] else RolesFrom(rows[..|rows| - 1]) + [Role(rows[|rows| - 1])]
    }

    /** The i-th role is the role of the i-th joined row. */
    lemma {:induction false} RolesFromAt(rows: seq<Row>, i: nat)
      requires i < |rows|
      ensures RolesFrom(rows)[i] == Role(rows[i])
    {
      if i < |rows| - 1 {
        var front := rows[..|rows| - 1];
        RolesFromAt(front, i);
        assert front[i] == rows[i];
      }
    }

    /** The permission list GetByName and GetAllActive give a user. */
    function Roles(userId: C.Guid): seq<C.Component>
      reads db, familyRepository.db
    {
      RolesFrom(LinkedFamilies(db.families, db.userFamilies, userId))
    }

    /** The user object GetByName and GetAllActive build from a row: its
        columns, and its roles in the order of the FAMILIES table. */
    predicate Hydrated(u: U.User, row: UserRow)
      reads u, db, familyRepository.db
    {
      Mirrors(u, row) && u.permissions == Roles(row.id)
    }

    /** A hydrated user's permissions are exactly its linked families, each
        carrying the patents linked to it. */
    lemma RolesAreLinkedFamilies(userId: C.Guid)
      ensures forall c :: c in Roles(userId) ==>
                c.Family? && Row(c.id, c.name) in db.families && (userId, c.id) in db.userFamilies
                && c.children == familyRepository.FamilyPatents(c.id)
      ensures forall row :: row in db.families && (userId, row.id) in db.userFamilies ==>
                C.Family(row.id, row.name, familyRepository.FamilyPatents(row.id)) in Roles(userId)
    {
      var rows := LinkedFamilies(db.families, db.userFamilies, userId);
      var r := Roles(userId);
      forall c | c in r
        ensures c.Family? && Row(c.id, c.name) in db.families && (userId, c.id) in db.userFamilies
                && c.children == familyRepository.FamilyPatents(c.id)
      {
        var i :| 0 <= i < |r| && r[i] == c;
        RolesFromAt(rows, i);
        assert rows[i] in rows;
        assert Row(c.id, c.name) == rows[i];
      }
      forall row | row in db.families && (userId, row.id) in db.userFamilies
        ensures C.Family(row.id, row.name, familyRepository.FamilyPatents(row.id)) in r
      {
        var i :| 0 <= i < |rows| && rows[i] == row;
        RolesFromAt(rows, i);
        assert r[i] == C.Family(row.id, row.name, familyRepository.FamilyPatents(row.id));
      }
    }

    /** The User object a reader row becomes, before any role is added. */
    method Load(row: UserRow) returns (u: U.User)
      ensures fresh(u) && Mirrors(u, row) && u.permissions == []
    {
      u := new U.User(row.id, row.name, row.password, row.isActive, row.role);
    }

    /** One family of FillUserFamily: a new Family object, filled with its
        patents, added to the user's permissions. */
    method AddRole(u: U.User, row: Row)
      modifies u`permissions
      ensures u.permissions == old(u.permissions) + [Role(row)]
    {
      ghost var role := Role(row);
      var family := new F.Family(row.id, row.name);
      familyRepository.FillFamilyPatents(family);
      assert family.children == role.children;
      u.AddPermission(family.Snapshot());
      assert Role(row) == role;
    }

    /** FillUserFamily: one role per joined row, in row order, each filled
        with its patents by FillFamilyPatents. */
    method FillRoles(u: U.User, rows: seq<Row>)
      modifies u`permissions
      ensures u.permissions == old(u.permissions) + RolesFrom(rows)
    {
      for i := 0 to |rows|
        invariant u.permissions == old(u.permissions) + RolesFrom(rows[..i])
      {
        ghost var done := RolesFrom(rows[..i]);
        PrefixOfPrefix(rows, i);
        assert RolesFrom(rows[..i + 1]) == done + [Role(rows[i])];
        AddRole(u, rows[i]);
        AppendAssociates(old(u.permissions), done, [Role(rows[i])]);
      }
      WholePrefix(rows);
    }

    /** The User a reader row becomes, with its roles filled in. */
    method Hydrate(row: UserRow) returns (u: U.User)
      ensures fresh(u) && Hydrated(u, row)
    {
      u := Load(row);
      var rows := LinkedFamilies(db.families, db.userFamilies, row.id);
      EmptyAppend(RolesFrom(rows));
      FillRoles(u, rows);
      assert u.permissions == RolesFrom(rows);
      assert RowOf(u) == row;
    }

    /** Exists: GetById is not null. */
    method Exists(id: C.Guid) returns (b: bool)
      ensures b <==> exists i :: 0 <= i < |db.users| && db.users[i].id == id
    {
      var row := FindUserById(db.users, id);
      b := row.Some?;
    }

    /** GetById: the first stored row with that Id as a User without roles,
        or null. */
    method GetById(id: C.Guid) returns (u: U.User?)
      ensures u == null <==> FindUserById(db.users, id).None?
      ensures u != null ==> fresh(u) && Mirrors(u, FindUserById(db.users, id).value) && u.permissions == []
    {
      match FindUserById(db.users, id)
      case None =>
        return null;
      case Some(row) =>
        u := Load(row);
    }

    /** GetByName: the first row whose name matches case-insensitively,
        carrying its roles and their patents, or null. */
    method GetByName(name: string) returns (u: U.User?)
      ensures u == null <==> FindUserByName(db.users, name).None?
      ensures u != null ==> fresh(u) && Hydrated(u, FindUserByName(db.users, name).value)
    {
      match FindUserByName(db.users, name)
      case None =>
        return null;
      case Some(row) =>
        u := Hydrate(row);
    }

    /** GetAll: one User per row, in table order, none with roles. */
    method GetAll() returns (r: seq<U.User>)
      ensures |r| == |db.users|
      ensures forall i :: 0 <= i < |r| ==> fresh(r[i]) && Mirrors(r[i], db.users[i]) && r[i].permissions == []
    {
      r := [];
      for i := 0 to |db.users|
        invariant |r| == i
        invariant forall j :: 0 <= j < i ==> fresh(r[j]) && Mirrors(r[j], db.users[j]) && r[j].permissions == []
      {
        var u := Load(db.users[i]);
        r := r + [u];
      }
    }

    /** GetAllActive: the rows with IsActive set, in table order, each
        carrying its roles and their patents. */
    method GetAllActive() returns (r: seq<U.User>)
      ensures AllHydrated(r, ActiveUsers(db.users))
    {
      var rows := ActiveUsers(db.users);
      r := [];
      for i := 0 to |rows|
        invariant AllHydrated(r, rows[..i])
      {
        PrefixGrows(rows, i);
        r := AppendHydrated(r, rows[..i], rows[i]);
      }
      WholePrefix(rows);
    }

    /** One pass of the reader loop of GetAllActive. */
    method AppendHydrated(us: seq<U.User>, rows: seq<UserRow>, row: UserRow) returns (r: seq<U.User>)
      requires AllHydrated(us, rows)
      ensures AllHydrated(r, rows + [row])
      ensures |r| == |us| + 1 && r[..|us|] == us && fresh(r[|us|])
    {
      var u := Hydrate(row);
      r := us + [u];
      AppendPrefix(us, [u]);
      AppendPrefix(rows, [row]);
    }

    /** Each user object is hydrated from the row at its position. */
    predicate AllHydrated(us: seq<U.User>, rows: seq<UserRow>)
      reads (set u | u in us), db, familyRepository.db
    {
      |us| == |rows| &&
      (us == [] || (AllHydrated(us[..|us| - 1], rows[..|rows| - 1]) && Hydrated(us[|us| - 1], rows[|rows| - 1])))
    }

    /** The i-th user object mirrors the i-th row and carries its roles. */
    lemma {:induction false} AllHydratedAt(us: seq<U.User>, rows: seq<UserRow>, i: nat)
      requires AllHydrated(us, rows) && i < |us|
      ensures |us| == |rows| && Mirrors(us[i], rows[i]) && us[i].permissions == Roles(rows[i].id)
    {
      if i < |us| - 1 {
        AllHydratedAt(us[..|us| - 1], rows[..|rows| - 1], i);
      }
    }

    /** INSERT INTO USERS; a failure is swallowed. */
    method Create(u: U.User, fails: bool)
      modifies db`users
      ensures db.users == if fails then old(db.users) else old(db.users) + [RowOf(u)]
    {
      if !fails {
        db.users := db.users + [RowOf(u)];
      }
    }

    /** Insert as written: the row is created only when a user with that Id
        is ALREADY stored; a new Id is refused as "User already exists". */
    method Insert(u: U.User, fails: bool) returns (r: Result<()>)
      modifies db`users
      ensures FindUserById(old(db.users), u.id).Some? ==>
                r.Success? && db.users == if fails then old(db.users) else old(db.users) + [RowOf(u)]
      ensures FindUserById(old(db.users), u.id).None? ==>
                r == Failure(UserAlreadyExists) && db.users == old(db.users)
    {
      var present := Exists(u.id);
      if present {
        Create(u, fails);
        return Success(());
      }
      return Failure(UserAlreadyExists);
    }

    /** Insert with the existence test the message describes: a stored Id is
        refused, a new one is created. */
    method InsertCorrected(u: U.User, fails: bool) returns (r: Result<()>)
      modifies db`users
      ensures FindUserById(old(db.users), u.id).Some? ==>
                r == Failure(UserAlreadyExists) && db.users == old(db.users)
      ensures FindUserById(old(db.users), u.id).None? ==>
                r.Success? && db.users == if fails then old(db.users) else old(db.users) + [RowOf(u)]
      ensures UniqueUserIds(old(db.users)) ==> UniqueUserIds(db.users)
    {
      var present := Exists(u.id);
      if present {
        return Failure(UserAlreadyExists);
      }
      Create(u, fails);
      return Success(());
    }

    /** Delete: a missing user reaches the repository as null and the first
        dereference throws. Otherwise the USERS_FAMILIES pairs of the user
        whose family is a FAMILIES row go, then every USERS row with that Id;
        pairs that point at no FAMILIES row are left behind. */
    method Delete(id: C.Guid) returns (r: Result<()>)
      modifies db`users, db`userFamilies
      ensures FindUserById(old(db.users), id).None? ==>
                r == Failure(UserNotFound) && unchanged(db)
      ensures FindUserById(old(db.users), id).Some? ==> r.Success?
      ensures FindUserById(old(db.users), id).Some? ==>
                forall p :: p in db.userFamilies <==>
                  p in old(db.userFamilies) && (p.0 != id || FindById(old(db.families), p.1).None?)
      ensures FindUserById(old(db.users), id).Some? ==>
                forall x :: x in db.users <==> x in old(db.users) && x.id != id
    {
      if FindUserById(db.users, id).None? {
        return Failure(UserNotFound);
      }
      var rows := LinkedFamilies(db.families, db.userFamilies, id);
      ghost var links := db.userFamilies;
      for i := 0 to |rows|
        invariant db.users == old(db.users)
        invariant forall p :: p in db.userFamilies <==>
                    p in links && (p.0 != id || forall j :: 0 <= j < i ==> rows[j].id != p.1)
      {
        db.userFamilies := db.userFamilies - {(id, rows[i].id)};
      }
      forall p ensures p in db.userFamilies <==>
                 p in links && (p.0 != id || FindById(db.families, p.1).None?)
      {
        if p in links && p.0 == id {
          if FindById(db.families, p.1).Some? {
            var row := FindById(db.families, p.1).value;
            assert row in rows;
          } else {
            forall j | 0 <= j < |rows| ensures rows[j].id != p.1 {
              assert rows[j] in rows;
            }
          }
        }
      }
      db.users := WithoutUser(db.users, id);
      return Success(());
    }

    /** Update: the repository's Update is not implemented. */
    method Update(u: U.User) returns (r: Result<()>)
      ensures r == Failure(NotImplemented)
    {
      return Failure(NotImplemented);
    }
  }

  /** The static _instance field of UserService with its lazy Instance(). */
  class UserServiceRegistry {
    const db: Database
    var instance: UserService?

    constructor (db: Database)
      ensures this.db == db && instance == null
    {
      this.db := db;
      instance := null;
    }

    /** Instance: create the service on the first call, then hand out the
        same object. */
    method Instance() returns (s: UserService)
      modifies this`instance
      ensures old(instance) != null ==> s == old(instance) && instance == old(instance)
      ensures old(instance) == null ==> fresh(s) && s.db == db && s.Valid()
      ensures instance == s
    {
      if instance == null {
        instance := new UserService(db);
      }
      s := instance;
    }
  }

  /** Two calls of Instance give the same service. */
  method InstanceTwice(registry: UserServiceRegistry) returns (a: UserService, b: UserService)
    modifies registry`instance
    ensures a == b
  {
    a := registry.Instance();
    b := registry.Instance();
  }

  /** As written, inserting a user into an empty store is refused. */
  method InsertIntoEmptyStoreIsRefused(service: UserService, u: U.User) returns (r: Result<()>)
    requires service.db.users == []
    modifies service.db`users
    ensures r == Failure(UserAlreadyExists) && service.db.users == []
  {
    r := service.Insert(u, false);
  }

  /** As written, inserting a user whose Id is stored adds a second row with
      that Id. */
  method InsertStoredIdDuplicates(service: UserService, u: U.User) returns (r: Result<()>)
    requires FindUserById(service.db.users, u.id).Some?
    modifies service.db`users
    ensures r.Success? && !UniqueUserIds(service.db.users)
  {
    var before := service.db.users;
    r := service.Insert(u, false);
    var i :| 0 <= i < |before| && before[i].id == u.id;
    assert service.db.users[i].id == service.db.users[|before|].id;
  }
}
