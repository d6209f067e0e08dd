/** User.cs, with the Id/Name/Password/IsActive/Role properties that the user
    repository reads and writes. */
module Users {
  import opened Outcomes
  import C = Components

  class User {
    var id: C.Guid
    var name: string
    var password: string
    var isActive: bool
    /** The Role column may be database-null. */
    var role: Option<string>
    /** The live _permissions list; there is no setter, callers add in place. */
    var permissions: seq<C.Component>

    /** A new User starts with an empty permission list. */
    constructor (id: C.Guid, name: string, password: string, isActive: bool, role: Option<string>)
      ensures this.id == id && this.name == name && this.password == password
      ensures this.isActive == isActive && this.role == role
      ensures permissions == []
    {
      this.id := id;
      this.name := name;
      this.password := password;
      this.isActive := isActive;
      this.role := role;
      permissions := [];
    }

    /** user.Permissions.Add(c): the addition persists on the user. */
    method AddPermission(c: C.Component)
      modifies this`permissions
      ensures permissions == old(permissions) + [c]
    {
      permissions := permissions + [c];
    }
  }
}
