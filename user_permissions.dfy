/** UserPermissionExtensions.cs: the permission queries on a User. Every
    query throws ArgumentNullException for a null user. */
module UserPermissions {
  import opened Outcomes
  import opened Text
  import opened Sequences
  import opened Sorting
  import C = Components
  import opened Users

  /** Enumerable.Any over the top-level permissions, in list order. */
  function AnyGrants(perms: seq<C.Component>, n: string): (r: bool)
    ensures r <==> exists i :: 0 <= i < |perms| && C.HasPermission(perms[i], n)
  {
    |perms| > 0 && (C.HasPermission(perms[0], n) || AnyGrants(perms[1..], n))
  }

  /** user.HasPermission(name): a blank name is never granted. */
  function HasPermission(user: User?, permissionName: string): (r: Result<bool>)
    reads user
    ensures user == null <==> r == Failure(ArgumentNull)
    ensures user != null && IsBlank(permissionName) ==> r == Success(false)
    ensures user != null && !IsBlank(permissionName) ==>
              r.Success? && (r.value <==> exists i :: 0 <= i < |user.permissions|
                                                      && C.HasPermission(user.permissions[i], permissionName))
  {
    if user == null then Failure(ArgumentNull)
    else if IsBlank(permissionName) then Success(false)
    else Success(AnyGrants(user.permissions, permissionName))
  }

  /** A user holds a permission exactly when the name is not blank and some
      node reachable from a top-level permission carries that name; so a
      role's own name counts as a permission too. */
  lemma HasPermissionIffNamedNode(user: User, n: string)
    ensures HasPermission(user, n) == Success(true) <==>
              !IsBlank(n) && exists i, x :: 0 <= i < |user.permissions| && x in C.Nodes(user.permissions[i])
                                            && x.name == n
  {
    forall i | 0 <= i < |user.permissions| {
      C.HasPermissionIffNamedNode(user.permissions[i], n);
    }
  }

  /** A role held at the top level grants its own name. */
  lemma RoleNameIsPermission(user: User, i: nat)
    requires i < |user.permissions| && user.permissions[i].Family?
    requires !IsBlank(user.permissions[i].name)
    ensures HasPermission(user, user.permissions[i].name) == Success(true)
  {
  }

  /** Enumerable.All of user.HasPermission over the names. */
  function AllGranted(user: User, names: seq<string>): (r: bool)
    reads user
    ensures r <==> forall i :: 0 <= i < |names| ==> HasPermission(user, names[i]) == Success(true)
  {
    |names| == 0 || (HasPermission(user, names[0]) == Success(true) && AllGranted(user, names[1..]))
  }

  /** Enumerable.Any of user.HasPermission over the names. */
  function AnyGranted(user: User, names: seq<string>): (r: bool)
    reads user
    ensures r <==> exists i :: 0 <= i < |names| && HasPermission(user, names[i]) == Success(true)
  {
    |names| > 0 && (HasPermission(user, names[0]) == Success(true) || AnyGranted(user, names[1..]))
  }

  /** user.HasAllPermissions(names): an empty list is false, not vacuously true. */
  function HasAllPermissions(user: User?, names: seq<string>): (r: Result<bool>)
    reads user
    ensures user == null <==> r == Failure(ArgumentNull)
    ensures user != null ==>
              r.Success? && (r.value <==> |names| > 0 && forall i :: 0 <= i < |names| ==>
                                                          HasPermission(user, names[i]) == Success(true))
  {
    if user == null then Failure(ArgumentNull)
    else if |names| == 0 then Success(false)
    else Success(AllGranted(user, names))
  }

  /** user.HasAnyPermission(names): an empty list is false. */
  function HasAnyPermission(user: User?, names: seq<string>): (r: Result<bool>)
    reads user
    ensures user == null <==> r == Failure(ArgumentNull)
    ensures user != null ==>
              r.Success? && (r.value <==> exists i :: 0 <= i < |names| && HasPermission(user, names[i]) == Success(true))
  {
    if user == null then Failure(ArgumentNull)
    else if |names| == 0 then Success(false)
    else Success(AnyGranted(user, names))
  }

  /** Holding all of a non-empty list implies holding one of it. */
  lemma HasAllImpliesHasAny(user: User, names: seq<string>)
    requires HasAllPermissions(user, names) == Success(true)
    ensures HasAnyPermission(user, names) == Success(true)
  {
    assert HasPermission(user, names[0]) == Success(true);
  }

  /** HasAllPermissions splits over concatenation of non-empty lists. */
  lemma {:induction false} HasAllOfConcat(user: User, a: seq<string>, b: seq<string>)
    requires |a| > 0 && |b| > 0
    ensures HasAllPermissions(user, a + b) == Success(true) <==>
              HasAllPermissions(user, a) == Success(true) && HasAllPermissions(user, b) == Success(true)
  {
    assert forall i :: 0 <= i < |a| ==> (a + b)[i] == a[i];
    assert forall i :: 0 <= i < |b| ==> (a + b)[|a| + i] == b[i];
    if HasAllPermissions(user, a) == Success(true) && HasAllPermissions(user, b) == Success(true) {
      forall i | 0 <= i < |a + b| ensures HasPermission(user, (a + b)[i]) == Success(true) {
        if i >= |a| { assert (a + b)[i] == b[i - |a|]; }
      }
    }
  }

  /** OfType<Family>(): the top-level roles, in list order. */
  function RolesOf(perms: seq<C.Component>): (r: seq<C.Component>)
    ensures |r| <= |perms|
    ensures forall i :: 0 <= i < |r| ==> r[i].Family? && r[i] in perms
    ensures forall i :: 0 <= i < |perms| && perms[i].Family? ==> perms[i] in r
  {
    if perms == [] then []
    else if perms[0].Family? then [perms[0]] + RolesOf(perms[1..])
    else RolesOf(perms[1..])
  }

  /** OfType<Family> keeps a single component exactly when it is a Family. */
  lemma RolesOfSingle(x: C.Component)
    ensures RolesOf([x]) == if x.Family? then [x] else []
  {
    assert [x][1..] == [];
  }

  /** OfType<Family> distributes over concatenation: the roles keep their
      list order and their duplicates. */
  lemma {:induction false} RolesOfAppend(a: seq<C.Component>, b: seq<C.Component>)
    ensures RolesOf(a + b) == RolesOf(a) + RolesOf(b)
  {
    if a == [] {
      assert a + b == b;
    } else {
      assert (a + b)[0] == a[0];
      assert (a + b)[1..] == a[1..] + b;
      RolesOfAppend(a[1..], b);
    }
  }

  /** user.GetRoles(). */
  function GetRoles(user: User?): (r: Result<seq<C.Component>>)
    reads user
    ensures user == null <==> r == Failure(ArgumentNull)
    ensures user != null ==>
              r.Success? && forall x :: x in r.value <==> x in user.permissions && x.Family?
    ensures user != null ==> r.Success? && r.value == RolesOf(user.permissions)
  {
    if user == null then Failure(ArgumentNull) else Success(RolesOf(user.permissions))
  }

  /** Any role whose name equals roleName ignoring case. */
  function AnyRoleNamed(roles: seq<C.Component>, roleName: string): (r: bool)
    ensures r <==> exists i :: 0 <= i < |roles| && EqualsIgnoreCase(roles[i].name, roleName)
  {
    |roles| > 0 && (EqualsIgnoreCase(roles[0].name, roleName) || AnyRoleNamed(roles[1..], roleName))
  }

  /** user.HasRole(roleName): only top-level Families are roles, their names
      compare ignoring case, and a blank role name is never held. */
  function HasRole(user: User?, roleName: string): (r: Result<bool>)
    reads user
    ensures user == null <==> r == Failure(ArgumentNull)
    ensures user != null && IsBlank(roleName) ==> r == Success(false)
    ensures user != null && !IsBlank(roleName) ==>
              r.Success? && (r.value <==> exists i :: 0 <= i < |user.permissions| && user.permissions[i].Family?
                                                      && EqualsIgnoreCase(user.permissions[i].name, roleName))
  {
    if user == null then Failure(ArgumentNull)
    else if IsBlank(roleName) then Success(false)
    else Success(AnyRoleNamed(RolesOf(user.permissions), roleName))
  }

  /** Two role names that differ only in letter case give the same answer. */
  lemma HasRoleIgnoresCase(user: User, a: string, b: string)
    requires EqualsIgnoreCase(a, b)
    ensures HasRole(user, a) == HasRole(user, b)
  {
    assert IsBlank(a) <==> IsBlank(b) by {
      forall i | 0 <= i < |a| ensures IsWhiteSpace(a[i]) <==> IsWhiteSpace(b[i]) {
        assert ToUpper(a[i]) == ToUpper(b[i]);
      }
    }
    forall i | 0 <= i < |user.permissions|
      ensures EqualsIgnoreCase(user.permissions[i].name, a) <==> EqualsIgnoreCase(user.permissions[i].name, b)
    {
    }
  }

  /** Patents of every top-level permission, depth first, duplicates kept. */
  function AtomsOfAll(perms: seq<C.Component>): seq<C.Component>
  {
    if perms == [] then [] else C.Atoms(perms[0]) + AtomsOfAll(perms[1..])
  }

  lemma AtomsOfAllUnfold(perms: seq<C.Component>, i: nat)
    requires i < |perms|
    ensures AtomsOfAll(perms[i..]) == C.Atoms(perms[i]) + AtomsOfAll(perms[i + 1..])
  {
    assert perms[i..][1..] == perms[i + 1..];
  }

  /** CollectAtomicPermissions(component, result): appends the Patents under
      component to result, depth first. */
  method CollectAtomicPermissions(component: C.Component, result: seq<C.Component>)
    returns (r: seq<C.Component>)
    ensures r == result + C.Atoms(component)
    decreases component
  {
    match component
    case Patent(_, _) =>
      r := result + [component];
    case Family(_, _, children) =>
      r := result;
      for i := 0 to |children|
        invariant r + C.AtomsFrom(component, i) == result + C.Atoms(component)
      {
        r := CollectAtomicPermissions(children[i], r);
      }
  }

  /** user.GetAllAtomicPermissions(): the flattened patents without duplicates. */
  method GetAllAtomicPermissions(user: User?) returns (r: Result<seq<C.Component>>)
    ensures user == null <==> r == Failure(ArgumentNull)
    ensures user != null ==> r == Success(Distinct(AtomsOfAll(user.permissions)))
  {
    if user == null {
      return Failure(ArgumentNull);
    }
    var perms := user.permissions;
    var atomic: seq<C.Component> := [];
    for i := 0 to |perms|
      invariant atomic + AtomsOfAll(perms[i..]) == AtomsOfAll(perms)
    {
      AtomsOfAllUnfold(perms, i);
      atomic := CollectAtomicPermissions(perms[i], atomic);
    }
    assert perms[|perms|..] == [];
    assert atomic == AtomsOfAll(perms) by {
      assert atomic + [] == atomic;
    }
    return Success(Distinct(atomic));
  }

  /** The flattening holds exactly the Patents reachable from the top-level
      permissions: Families never, every reachable Patent at least once. */
  lemma {:induction false} AtomsOfAllArePatentNodes(perms: seq<C.Component>)
    ensures forall x :: x in AtomsOfAll(perms) <==>
                          x.Patent? && exists i :: 0 <= i < |perms| && x in C.Nodes(perms[i])
  {
    if perms != [] {
      C.AtomsArePatentNodes(perms[0]);
      AtomsOfAllArePatentNodes(perms[1..]);
      assert forall i :: 1 <= i < |perms| ==> perms[i] == perms[1..][i - 1];
    }
  }

  /** Distinct keeps exactly the elements of its input. */
  lemma DistinctSameElements<T>(s: seq<T>)
    ensures forall x :: x in Distinct(s) <==> x in s
  {
    var d := Distinct(s);
    forall x ensures x in d <==> x in s {
      if x in d {
        var k :| 0 <= k < |d| && d[k] == x;
      }
      if x in s {
        var k :| 0 <= k < |s| && s[k] == x;
      }
    }
  }

  /** What GetAllAtomicPermissions returns, stated without the flattening:
      each reachable Patent exactly once, and nothing else. */
  lemma AtomicPermissionsAreReachablePatents(perms: seq<C.Component>)
    ensures NoDuplicates(Distinct(AtomsOfAll(perms)))
    ensures forall x :: x in Distinct(AtomsOfAll(perms)) <==>
                          x.Patent? && exists i :: 0 <= i < |perms| && x in C.Nodes(perms[i])
  {
    AtomsOfAllArePatentNodes(perms);
    DistinctSameElements(AtomsOfAll(perms));
  }

  function NamesOf(s: seq<C.Component>): (r: seq<string>)
    ensures |r| == |s| && forall i :: 0 <= i < |s| ==> r[i] == s[i].name
  {
    seq(|s|, i requires 0 <= i < |s| => s[i].name)
  }

  /** A name is listed exactly when some component carries it. */
  lemma NamesOfMembers(s: seq<C.Component>, n: string)
    ensures n in NamesOf(s) <==> exists x :: x in s && x.name == n
  {
    var names := NamesOf(s);
    if n in names {
      var j :| 0 <= j < |names| && names[j] == n;
      assert s[j] in s;
    }
    if exists x :: x in s && x.name == n {
      var x :| x in s && x.name == n;
      var j :| 0 <= j < |s| && s[j] == x;
      assert names[j] == n;
    }
  }

  /** A reordering of the distinct names holds exactly the names carried. */
  lemma SortedNamesMembers(s: seq<C.Component>, sorted: seq<string>)
    requires multiset(sorted) == multiset(Distinct(NamesOf(s)))
    ensures forall n :: n in sorted <==> exists x :: x in s && x.name == n
  {
    DistinctSameElements(NamesOf(s));
    forall n ensures n in sorted <==> exists x :: x in s && x.name == n {
      assert n in sorted <==> n in multiset(sorted);
      assert n in Distinct(NamesOf(s)) <==> n in multiset(Distinct(NamesOf(s)));
      NamesOfMembers(s, n);
    }
  }

  lemma {:induction false} NoDuplicatesCountAtMostOne<T>(s: seq<T>, x: T)
    requires NoDuplicates(s)
    ensures multiset(s)[x] <= 1
  {
    if s != [] {
      assert s == [s[0]] + s[1..];
      NoDuplicatesCountAtMostOne(s[1..], x);
    }
  }

  /** A permutation of a duplicate-free sequence is duplicate-free. */
  lemma PermutationKeepsNoDuplicates<T>(s: seq<T>, t: seq<T>)
    requires NoDuplicates(s) && multiset(s) == multiset(t)
    ensures NoDuplicates(t)
  {
    forall i, j | 0 <= i < j < |t| ensures t[i] != t[j] {
      if t[i] == t[j] {
        assert t == t[..j] + [t[j]] + t[j + 1..];
        assert t[i] in t[..j];
        assert multiset(t)[t[i]] >= 2;
        NoDuplicatesCountAtMostOne(s, t[i]);
      }
    }
  }

  /** user.GetPermissionNames(): the distinct names of the atomic permissions,
      in ascending order. */
  method GetPermissionNames(user: User?) returns (r: Result<seq<string>>)
    ensures user == null <==> r == Failure(ArgumentNull)
    ensures user != null ==> r.Success?
    ensures r.Success? ==> SortedBy(r.value, s => s) && NoDuplicates(r.value)
    ensures r.Success? ==> forall n :: n in r.value <==>
                                         exists x :: x in Distinct(AtomsOfAll(user.permissions)) && x.name == n
  {
    var atomic := GetAllAtomicPermissions(user);
    if atomic.Failure? {
      return Failure(atomic.error);
    }
    var names := NamesOf(atomic.value);
    var distinct := Distinct(names);
    var sorted := SortBy(distinct, s => s);
    PermutationKeepsNoDuplicates(distinct, sorted);
    SortedNamesMembers(atomic.value, sorted);
    return Success(sorted);
  }
}
