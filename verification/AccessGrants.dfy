/**
 Access grants: the table with its operations, and the four ways of asking who may do what.
 `Granted` is the relation that they are all measured against.
 */
module AccessGrants {
  import opened Wrappers
  import opened Sequences

  type Id = string

  datatype Grant =
    Grant(resourceType: string, resourceId: Id, principalType: string, principalId: Id, permission: string)

  // Group membership, and the roles of the known users.
  datatype Directory = Directory(members: map<Id, set<Id>>, roles: map<Id, string>)
  {
    function GroupsOf(user: Id): set<Id> {
      set g | g in members && user in members[g]
    }
  }

  datatype Document = Document(id: Id, owner: Id)

  // ---- The relation ----

  predicate About(g: Grant, resourceType: string, resourceId: Id, permission: string) {
    g.resourceType == resourceType && g.resourceId == resourceId && g.permission == permission
  }

  predicate IsPublic(g: Grant) {
    g.principalType == "user" && g.principalId == "*"
  }

  // The grant reaches this user through everyone, the user or one of the groups.
  predicate Reaches(g: Grant, user: Id, groups: set<Id>) {
    || IsPublic(g)
    || (g.principalType == "user" && g.principalId == user)
    || (g.principalType == "group" && g.principalId in groups)
  }

  ghost predicate Granted(rows: seq<Grant>, user: Id, groups: set<Id>, resourceType: string, resourceId: Id,
                          permission: string) {
    exists g <- rows :: About(g, resourceType, resourceId, permission) && Reaches(g, user, groups)
  }

  ghost predicate PubliclyGranted(rows: seq<Grant>, resourceType: string, resourceId: Id, permission: string) {
    exists g <- rows :: About(g, resourceType, resourceId, permission) && IsPublic(g)
  }

  // Row by row: one to everyone, one to the user, or one to a group of the user's. No other row
  // matters, whatever resource, kind of principal or permission it names.
  lemma GrantedByOneOfThree(rows: seq<Grant>, user: Id, groups: set<Id>, resourceType: string, resourceId: Id,
                            permission: string)
    ensures Granted(rows, user, groups, resourceType, resourceId, permission) <==>
            || Grant(resourceType, resourceId, "user", "*", permission) in rows
            || Grant(resourceType, resourceId, "user", user, permission) in rows
            || exists id <- groups :: Grant(resourceType, resourceId, "group", id, permission) in rows
    ensures PubliclyGranted(rows, resourceType, resourceId, permission) <==>
            Grant(resourceType, resourceId, "user", "*", permission) in rows
  {
    if Granted(rows, user, groups, resourceType, resourceId, permission) {
      var g :| g in rows && About(g, resourceType, resourceId, permission) && Reaches(g, user, groups);
      assert g == Grant(resourceType, resourceId, g.principalType, g.principalId, permission);
    }
    if PubliclyGranted(rows, resourceType, resourceId, permission) {
      var g :| g in rows && About(g, resourceType, resourceId, permission) && IsPublic(g);
      assert g == Grant(resourceType, resourceId, "user", "*", permission);
    }
  }

  // ---- Query conditions, as the source builds them ----

  datatype Condition = Public | Direct(user: Id) | InGroups(groups: set<Id>)

  predicate Holds(c: Condition, g: Grant) {
    match c
    case Public => IsPublic(g)
    case Direct(user) => g.principalType == "user" && g.principalId == user
    case InGroups(groups) => g.principalType == "group" && g.principalId in groups
  }

  predicate AnyHolds(cs: seq<Condition>, g: Grant) {
    exists c <- cs :: Holds(c, g)
  }

  // The conditions of a user: everyone, the user, and the groups if there are any.
  function Conditions(user: Id, groups: set<Id>): seq<Condition> {
    [Public, Direct(user)] + if groups != {} then [InGroups(groups)] else []
  }

  lemma ConditionsAreReaches(user: Id, groups: set<Id>, g: Grant)
    ensures AnyHolds(Conditions(user, groups), g) <==> Reaches(g, user, groups)
  {
    var cs := Conditions(user, groups);
    assert cs[0] == Public && cs[1] == Direct(user);
    assert Holds(Public, g) || Holds(Direct(user), g) ==> AnyHolds(cs, g);
    if groups != {} {
      assert cs[2] == InGroups(groups);
      assert Holds(InGroups(groups), g) ==> AnyHolds(cs, g);
    }
  }

  function Without(rows: seq<Grant>, drop: Grant -> bool): (r: seq<Grant>)
    ensures forall g :: g in r <==> g in rows && !drop(g)
    ensures NoDuplicates(rows) ==> NoDuplicates(r)
  {
    if rows == [] then []
    else if drop(rows[0]) then Without(rows[1..], drop)
    else [rows[0]] + Without(rows[1..], drop)
  }

  ghost predicate ReachedBy(grants: seq<Grant>, user: Id, directory: Directory) {
    exists g <- grants :: Reaches(g, user, directory.GroupsOf(user))
  }

  class AccessTable {
    var rows: seq<Grant>

    constructor ()
      ensures rows == []
    {
      rows := [];
    }

    // ---- The four readings ----

    method HasAccess(directory: Directory, user: Id, resourceType: string, resourceId: Id, permission: string,
                     groupIds: Option<set<Id>>) returns (allowed: bool)
      ensures allowed <==> Granted(rows, user, if groupIds.Some? then groupIds.value else directory.GroupsOf(user),
                                   resourceType, resourceId, permission)
    {
      var conditions := [Public, Direct(user)];
      var groups := if groupIds.Some? then groupIds.value else directory.GroupsOf(user);
      if groups != {} {
        conditions := conditions + [InGroups(groups)];
      }
      forall g ensures AnyHolds(conditions, g) <==> Reaches(g, user, groups) {
        ConditionsAreReaches(user, groups, g);
      }
      allowed := exists g <- rows :: About(g, resourceType, resourceId, permission) && AnyHolds(conditions, g);
    }

    method GetAccessibleResourceIds(directory: Directory, user: Id, resourceType: string, resourceIds: seq<Id>,
                                    permission: string, groupIds: Option<set<Id>>) returns (ids: set<Id>)
      ensures ids == set id | id in resourceIds &&
                              Granted(rows, user, if groupIds.Some? then groupIds.value else directory.GroupsOf(user),
                                      resourceType, id, permission)
    {
      if resourceIds == [] {
        return {};
      }
      var conditions := [Public, Direct(user)];
      var groups := if groupIds.Some? then groupIds.value else directory.GroupsOf(user);
      if groups != {} {
        conditions := conditions + [InGroups(groups)];
      }
      forall g ensures AnyHolds(conditions, g) <==> Reaches(g, user, groups) {
        ConditionsAreReaches(user, groups, g);
      }
      ids := set g | g in rows && g.resourceType == resourceType && g.resourceId in resourceIds &&
                     g.permission == permission && AnyHolds(conditions, g) :: g.resourceId;
      forall id ensures id in ids <==> id in resourceIds && Granted(rows, user, groups, resourceType, id, permission) {
      }
    }

    // A known user is listed exactly when access is granted with the user's own groups,
    // except that a public grant leaves pending users out.
    method GetUsersWithAccess(directory: Directory, resourceType: string, resourceId: Id, permission: string)
      returns (users: set<Id>)
      ensures forall u :: u in users <==>
        && u in directory.roles
        && Granted(rows, u, directory.GroupsOf(u), resourceType, resourceId, permission)
        && (PubliclyGranted(rows, resourceType, resourceId, permission) ==> directory.roles[u] != "pending")
    {
      var grants := Without(rows, (g: Grant) => !About(g, resourceType, resourceId, permission));
      for i := 0 to |grants|
        invariant forall g <- grants[..i] :: !IsPublic(g)
      {
        if IsPublic(grants[i]) {
          assert grants[i] in rows;
          return set u | u in directory.roles && directory.roles[u] != "pending";
        }
        assert grants[..i + 1] == grants[..i] + [grants[i]];
      }
      assert grants[..|grants|] == grants;
      var ids: set<Id> := {};
      for i := 0 to |grants|
        invariant forall u :: u in ids <==> ReachedBy(grants[..i], u, directory)
      {
        var g := grants[i];
        assert grants[..i + 1] == grants[..i] + [g];
        assert !IsPublic(g);
        forall u ensures ReachedBy(grants[..i + 1], u, directory) <==>
                         ReachedBy(grants[..i], u, directory) || Reaches(g, u, directory.GroupsOf(u))
        {
        }
        if g.principalType == "user" {
          ids := ids + {g.principalId};
        } else if g.principalType == "group" {
          if g.principalId in directory.members {
            ids := ids + directory.members[g.principalId];
          }
        }
      }
      users := set u | u in ids && u in directory.roles;
      forall u ensures ReachedBy(grants, u, directory) <==>
                       Granted(rows, u, directory.GroupsOf(u), resourceType, resourceId, permission)
      {
      }
    }

    // ---- Changing the table ----

    method GrantAccess(grant: Grant)
      requires NoDuplicates(rows)
      modifies this
      ensures NoDuplicates(rows)
      ensures rows == if grant in old(rows) then old(rows) else old(rows) + [grant]
    {
      if grant !in rows {
        rows := rows + [grant];
      }
    }

    method RevokeAccess(grant: Grant) returns (removed: bool)
      requires NoDuplicates(rows)
      modifies this
      ensures NoDuplicates(rows)
      ensures rows == Without(old(rows), (g: Grant) => g == grant) && removed == (grant in old(rows))
    {
      var after := Without(rows, (g: Grant) => g == grant);
      removed := grant in rows;
      rows := after;
    }

    // Replaces all grants of a resource by a list sent by a client.
    method SetAccessGrants(resourceType: string, resourceId: Id, raws: Option<seq<Raw>>, freshId: nat -> string)
      requires NoDuplicates(rows)
      modifies this
      ensures NoDuplicates(rows)
      ensures rows == Without(old(rows), (g: Grant) => g.resourceType == resourceType && g.resourceId == resourceId) +
                      AsRows(resourceType, resourceId, Dedup(ValidKeys(if raws.Some? then raws.value else [])))
      // other resources keep their grants, and this one gets what the entries say
      ensures forall g :: g in rows <==>
        if g.resourceType == resourceType && g.resourceId == resourceId
        then raws.Some? && SomeoneSays(raws.value, Key(g.principalType, g.principalId, g.permission))
        else g in old(rows)
    {
      var kept := Without(rows, (g: Grant) => g.resourceType == resourceType && g.resourceId == resourceId);
      var grants := NormalizeAccessGrants(raws, freshId);
      var keys := KeysOf(grants);
      rows := kept;
      for i := 0 to |grants|
        invariant rows == kept + AsRows(resourceType, resourceId, keys[..i])
      {
        assert keys[..i + 1] == keys[..i] + [grants[i].key];
        rows := rows + [RowOf(resourceType, resourceId, grants[i].key)];
      }
      assert keys[..|grants|] == keys;
      DedupFacts(ValidKeys(if raws.Some? then raws.value else []));
      ReplacementIsUnique(kept, resourceType, resourceId, keys);
      forall g {
        RowsAreSaid(resourceType, resourceId, if raws.Some? then raws.value else [], g);
      }
    }
  }

  // ---- What the changes mean for access ----

  lemma GrantWidensExactly(rows: seq<Grant>, grant: Grant, user: Id, groups: set<Id>,
                           resourceType: string, resourceId: Id, permission: string)
    ensures Granted(rows + [grant], user, groups, resourceType, resourceId, permission) <==>
            || Granted(rows, user, groups, resourceType, resourceId, permission)
            || (About(grant, resourceType, resourceId, permission) && Reaches(grant, user, groups))
  {
    forall g ensures g in rows + [grant] <==> g in rows || g == grant {
    }
  }

  lemma RevokeNarrowsExactly(rows: seq<Grant>, grant: Grant, user: Id, groups: set<Id>,
                             resourceType: string, resourceId: Id, permission: string)
    ensures Granted(Without(rows, (g: Grant) => g == grant), user, groups, resourceType, resourceId, permission) <==>
            exists g <- rows :: g != grant && About(g, resourceType, resourceId, permission) && Reaches(g, user, groups)
  {
  }

  // Revoking a grant that was just added brings the table back.
  lemma RevokeUndoesGrant(rows: seq<Grant>, grant: Grant)
    requires grant !in rows
    ensures Without(rows + [grant], (g: Grant) => g == grant) == rows
  {
    OnlyLastIsDropped(rows, grant, (g: Grant) => g == grant);
  }

  lemma {:induction false} OnlyLastIsDropped(rows: seq<Grant>, grant: Grant, drop: Grant -> bool)
    requires drop(grant) && forall g <- rows :: !drop(g)
    ensures Without(rows + [grant], drop) == rows
  {
    if rows == [] {
      assert [] + [grant] == [grant] && [grant][1..] == [];
    } else {
      assert (rows + [grant])[0] == rows[0] && (rows + [grant])[1..] == rows[1..] + [grant];
      OnlyLastIsDropped(rows[1..], grant, drop);
    }
  }

  // ---- Query filters over documents ----

  // What the source adds to a query over documents: conditions on the document's owner and on
  // the existence of a grant for it.
  datatype Filter =
    | GrantExists(permission: string, any: seq<Condition>)
    | OwnedBy(user: Id)
    | Not(f: Filter)
    | AnyOf(fs: seq<Filter>)
    | AllOf(fs: seq<Filter>)

  ghost predicate Keeps(rows: seq<Grant>, resourceType: string, f: Filter, d: Document) {
    match f
    case GrantExists(permission, any) =>
      exists g <- rows :: About(g, resourceType, d.id, permission) && AnyHolds(any, g)
    case OwnedBy(user) => d.owner == user
    case Not(g) => !Keeps(rows, resourceType, g, d)
    case AnyOf(fs) => exists g <- fs :: Keeps(rows, resourceType, g, d)
    case AllOf(fs) => forall g <- fs :: Keeps(rows, resourceType, g, d)
  }

  // The conditions on grants that name the user or a group; "" is no user.
  function Named(user: Id, groups: set<Id>): seq<Condition> {
    (if user != "" then [Direct(user)] else []) + if groups != {} then [InGroups(groups)] else []
  }

  // has_permission_filter. None leaves the query as it is.
  function PermissionFilter(user: Id, groups: set<Id>, permission: string): Option<Filter> {
    if permission == "read_only" then Some(ReadOnlyFilter(user, groups))
    else if user == "" && groups == {} then None
    else
      Some(AnyOf([GrantExists(permission, [Public] + Named(user, groups))] +
                 if user != "" then [OwnedBy(user)] else []))
  }

  // _has_read_only_permission_filter
  function ReadOnlyFilter(user: Id, groups: set<Id>): Filter {
    AllOf([GrantExists("read", Named(user, groups)), Not(GrantExists("write", Named(user, groups))),
           Not(GrantExists("read", [Public]))] + if user != "" then [Not(OwnedBy(user))] else [])
  }

  // The grant names the user or one of the groups; "" names nobody.
  predicate Names(g: Grant, user: Id, groups: set<Id>) {
    || (user != "" && g.principalType == "user" && g.principalId == user)
    || (g.principalType == "group" && g.principalId in groups)
  }

  lemma NamedIsNames(user: Id, groups: set<Id>, g: Grant)
    ensures AnyHolds(Named(user, groups), g) <==> Names(g, user, groups)
    ensures AnyHolds([Public] + Named(user, groups), g) <==> IsPublic(g) || Names(g, user, groups)
  {
    var named := Named(user, groups);
    if user != "" {
      assert named[0] == Direct(user);
      assert Holds(Direct(user), g) ==> AnyHolds(named, g);
    }
    if groups != {} {
      assert named[|named| - 1] == InGroups(groups);
      assert Holds(InGroups(groups), g) ==> AnyHolds(named, g);
    }
    PublicOr(named, g);
  }

  lemma PublicOr(cs: seq<Condition>, g: Grant)
    ensures AnyHolds([Public] + cs, g) <==> IsPublic(g) || AnyHolds(cs, g)
  {
    var all := [Public] + cs;
    assert forall c :: c in all <==> c == Public || c in cs;
    assert Holds(Public, g) <==> IsPublic(g);
  }

  // A filter that is a choice, or a combination, of a list that may end in one more.
  lemma KeepsListed(rows: seq<Grant>, resourceType: string, fs: seq<Filter>, more: seq<Filter>, d: Document)
    ensures Keeps(rows, resourceType, AnyOf(fs + more), d) <==>
            Keeps(rows, resourceType, AnyOf(fs), d) || Keeps(rows, resourceType, AnyOf(more), d)
    ensures Keeps(rows, resourceType, AllOf(fs + more), d) <==>
            Keeps(rows, resourceType, AllOf(fs), d) && Keeps(rows, resourceType, AllOf(more), d)
  {
    assert forall f :: f in fs + more <==> f in fs || f in more;
  }

  ghost predicate GrantedByName(rows: seq<Grant>, user: Id, groups: set<Id>, resourceType: string, resourceId: Id,
                                permission: string) {
    exists g <- rows :: About(g, resourceType, resourceId, permission) && Names(g, user, groups)
  }

  // A grant to everyone, or one that names the user or one of the groups; "" names nobody.
  ghost predicate Permitted(rows: seq<Grant>, user: Id, groups: set<Id>, resourceType: string, resourceId: Id,
                            permission: string) {
    || PubliclyGranted(rows, resourceType, resourceId, permission)
    || GrantedByName(rows, user, groups, resourceType, resourceId, permission)
  }

  lemma NamedByOneOfTwo(rows: seq<Grant>, user: Id, groups: set<Id>, resourceType: string, resourceId: Id,
                        permission: string)
    ensures GrantedByName(rows, user, groups, resourceType, resourceId, permission) <==>
            || (user != "" && Grant(resourceType, resourceId, "user", user, permission) in rows)
            || exists id <- groups :: Grant(resourceType, resourceId, "group", id, permission) in rows
  {
    if GrantedByName(rows, user, groups, resourceType, resourceId, permission) {
      var g :| g in rows && About(g, resourceType, resourceId, permission) && Names(g, user, groups);
      assert g == Grant(resourceType, resourceId, g.principalType, g.principalId, permission);
    }
  }

  // For a given user this is the point check.
  lemma PermittedIsGranted(rows: seq<Grant>, user: Id, groups: set<Id>, resourceType: string, resourceId: Id,
                           permission: string)
    requires user != ""
    ensures Permitted(rows, user, groups, resourceType, resourceId, permission) <==>
            Granted(rows, user, groups, resourceType, resourceId, permission)
  {
  }

  // For a given user, the query keeps what the user owns and what the point check allows. With
  // groups only, it keeps what is public or granted to one of them; with neither, everything.
  lemma FilterAgrees(rows: seq<Grant>, user: Id, groups: set<Id>, resourceType: string, permission: string, d: Document)
    requires permission != "read_only"
    ensures var f := PermissionFilter(user, groups, permission);
            if user != "" then
              f.Some? && (Keeps(rows, resourceType, f.value, d) <==>
                            d.owner == user || Granted(rows, user, groups, resourceType, d.id, permission))
            else if groups != {} then
              f.Some? && (Keeps(rows, resourceType, f.value, d) <==>
                            Permitted(rows, "", groups, resourceType, d.id, permission))
            else f.None?
  {
    var grant := GrantExists(permission, [Public] + Named(user, groups));
    var owner := if user != "" then [OwnedBy(user)] else [];
    KeepsListed(rows, resourceType, [grant], owner, d);
    assert grant in [grant];
    forall g ensures AnyHolds([Public] + Named(user, groups), g) <==> IsPublic(g) || Names(g, user, groups) {
      NamedIsNames(user, groups, g);
    }
    if user != "" {
      assert OwnedBy(user) in owner;
    }
  }

  predicate IsOwner(user: Id, d: Document) {
    user != "" && d.owner == user
  }

  // What the read-only filter is documented to keep: readable, not public, not owned and not
  // writable.
  ghost predicate ReadOnly(rows: seq<Grant>, user: Id, groups: set<Id>, resourceType: string, d: Document) {
    && Permitted(rows, user, groups, resourceType, d.id, "read")
    && !Permitted(rows, user, groups, resourceType, d.id, "write")
    && !PubliclyGranted(rows, resourceType, d.id, "read")
    && !IsOwner(user, d)
  }

  // The filter misses write access given to everyone: it keeps too much exactly for a
  // document that everyone may write, and that is shared by name for reading only.
  lemma ReadOnlyFilterIff(rows: seq<Grant>, user: Id, groups: set<Id>, resourceType: string, d: Document)
    requires user != "" || groups != {}
    ensures PermissionFilter(user, groups, "read_only") == Some(ReadOnlyFilter(user, groups))
    ensures var kept := Keeps(rows, resourceType, ReadOnlyFilter(user, groups), d);
            && (ReadOnly(rows, user, groups, resourceType, d) ==> kept)
            && ((kept <==> ReadOnly(rows, user, groups, resourceType, d)) <==>
                !(&& PubliclyGranted(rows, resourceType, d.id, "write") && !IsOwner(user, d)
                  && GrantedByName(rows, user, groups, resourceType, d.id, "read")
                  && !GrantedByName(rows, user, groups, resourceType, d.id, "write")
                  && !PubliclyGranted(rows, resourceType, d.id, "read")))
  {
    ReadOnlyFilterMeans(rows, user, groups, resourceType, d);
  }

  // Everyone may write the document, and the user may read it by name: it is kept.
  lemma PublicWriteIsKept()
    ensures var rows := [Grant("note", "n", "user", "*", "write"), Grant("note", "n", "user", "u", "read")];
            var d := Document("n", "owner");
            Keeps(rows, "note", ReadOnlyFilter("u", {}), d) && !ReadOnly(rows, "u", {}, "note", d)
  {
    var everyone, named := Grant("note", "n", "user", "*", "write"), Grant("note", "n", "user", "u", "read");
    var rows := [everyone, named];
    assert everyone in rows && named in rows;
    assert About(everyone, "note", "n", "write") && IsPublic(everyone);
    assert About(named, "note", "n", "read") && Names(named, "u", {});
    assert PubliclyGranted(rows, "note", "n", "write") && GrantedByName(rows, "u", {}, "note", "n", "read");
    ReadOnlyFilterIff(rows, "u", {}, "note", Document("n", "owner"));
  }

  lemma ReadOnlyFilterMeans(rows: seq<Grant>, user: Id, groups: set<Id>, resourceType: string, d: Document)
    ensures Keeps(rows, resourceType, ReadOnlyFilter(user, groups), d) <==>
            && GrantedByName(rows, user, groups, resourceType, d.id, "read")
            && !GrantedByName(rows, user, groups, resourceType, d.id, "write")
            && !PubliclyGranted(rows, resourceType, d.id, "read")
            && !IsOwner(user, d)
  {
    forall g
      ensures AnyHolds(Named(user, groups), g) <==> Names(g, user, groups)
      ensures AnyHolds([Public], g) <==> IsPublic(g)
    {
      NamedIsNames(user, groups, g);
      assert Public in [Public];
    }
    var named := Named(user, groups);
    var read, write, public := GrantExists("read", named), GrantExists("write", named), GrantExists("read", [Public]);
    var owner := if user != "" then [Not(OwnedBy(user))] else [];
    assert Keeps(rows, resourceType, read, d) <==> GrantedByName(rows, user, groups, resourceType, d.id, "read");
    assert Keeps(rows, resourceType, write, d) <==> GrantedByName(rows, user, groups, resourceType, d.id, "write");
    assert Keeps(rows, resourceType, public, d) <==> PubliclyGranted(rows, resourceType, d.id, "read");
    KeepsListed(rows, resourceType, [read, Not(write), Not(public)], owner, d);
    AllOfThree(rows, resourceType, read, Not(write), Not(public), d);
    NotOwned(rows, resourceType, user, d);
  }

  lemma NotOwned(rows: seq<Grant>, resourceType: string, user: Id, d: Document)
    ensures Keeps(rows, resourceType, AllOf(if user != "" then [Not(OwnedBy(user))] else []), d) <==> !IsOwner(user, d)
  {
    var not := Not(OwnedBy(user));
    assert not in [not] && (Keeps(rows, resourceType, not, d) <==> d.owner != user);
  }

  lemma AllOfThree(rows: seq<Grant>, resourceType: string, f: Filter, g: Filter, h: Filter, d: Document)
    ensures Keeps(rows, resourceType, AllOf([f, g, h]), d) <==>
            Keeps(rows, resourceType, f, d) && Keeps(rows, resourceType, g, d) && Keeps(rows, resourceType, h, d)
  {
    var fs := [f, g, h];
    assert fs[0] == f && fs[1] == g && fs[2] == h;
  }

  // ---- Lists sent by clients ----

  // A missing or non-string field is None; an entry that is no object is NotAGrant.
  datatype Raw =
    | NotAGrant
    | Raw(id: Option<string>, principalType: Option<string>, principalId: Option<Id>, permission: Option<string>)

  datatype Key = Key(principalType: string, principalId: Id, permission: string)
  datatype Normal = Normal(id: string, key: Key)

  function ValidKey(r: Raw): Option<Key> {
    if r.Raw? && r.principalType in {Some("user"), Some("group")} && r.permission in {Some("read"), Some("write")} &&
       r.principalId.Some? && r.principalId.value != ""
    then Some(Key(r.principalType.value, r.principalId.value, r.permission.value))
    else None
  }

  // The entry names a user or group and a permission, all of them usable, and they are the key's.
  predicate Says(r: Raw, key: Key) {
    && r.Raw? && r.principalType == Some(key.principalType) && r.principalId == Some(key.principalId)
    && r.permission == Some(key.permission) && key.principalId != ""
    && (key.principalType == "user" || key.principalType == "group")
    && (key.permission == "read" || key.permission == "write")
  }

  lemma ValidKeyIs(r: Raw, key: Key)
    ensures ValidKey(r) == Some(key) <==> Says(r, key)
  {
  }

  function ValidKeys(raws: seq<Raw>): seq<Key> {
    if raws == [] then []
    else
      var last := ValidKey(raws[|raws| - 1]);
      var init := ValidKeys(raws[..|raws| - 1]);
      if last.Some? then init + [last.value] else init
  }

  // The id of the last valid entry with the key; a fresh one if it brought none.
  function LastId(raws: seq<Raw>, key: Key, freshId: nat -> string): string {
    if raws == [] then ""
    else
      var n := |raws| - 1;
      if ValidKey(raws[n]) == Some(key) then
        if raws[n].id.Some? && raws[n].id.value != "" then raws[n].id.value else freshId(n)
      else LastId(raws[..n], key, freshId)
  }

  function KeysOf(grants: seq<Normal>): (keys: seq<Key>)
    ensures |keys| == |grants| && forall i :: 0 <= i < |grants| ==> keys[i] == grants[i].key
  {
    seq(|grants|, i requires 0 <= i < |grants| => grants[i].key)
  }

  function RowOf(resourceType: string, resourceId: Id, key: Key): Grant {
    Grant(resourceType, resourceId, key.principalType, key.principalId, key.permission)
  }

  function AsRows(resourceType: string, resourceId: Id, keys: seq<Key>): (rows: seq<Grant>)
    ensures |rows| == |keys| && forall i :: 0 <= i < |keys| ==> rows[i] == RowOf(resourceType, resourceId, keys[i])
  {
    seq(|keys|, i requires 0 <= i < |keys| => RowOf(resourceType, resourceId, keys[i]))
  }

  lemma ReplacementIsUnique(kept: seq<Grant>, resourceType: string, resourceId: Id, keys: seq<Key>)
    requires NoDuplicates(kept) && NoDuplicates(keys)
    requires forall g <- kept :: !(g.resourceType == resourceType && g.resourceId == resourceId)
    ensures NoDuplicates(kept + AsRows(resourceType, resourceId, keys))
  {
    var added := AsRows(resourceType, resourceId, keys);
    forall i, j | 0 <= i < j < |kept| + |added| ensures (kept + added)[i] != (kept + added)[j] {
      if i < |kept| {
        assert kept[i] in kept;
      } else {
        assert keys[i - |kept|] != keys[j - |kept|];
      }
    }
  }

  // The dictionary built so far: its keys in insertion order, and the id stored for each.
  ghost predicate Collected(given: seq<Raw>, freshId: nat -> string, order: seq<Key>, ids: map<Key, string>) {
    && order == Dedup(ValidKeys(given))
    && (forall k :: k in ids <==> k in ValidKeys(given))
    && (forall k <- ids :: ids[k] == LastId(given, k, freshId))
  }

  lemma CollectedNext(given: seq<Raw>, freshId: nat -> string, order: seq<Key>, ids: map<Key, string>, r: Raw)
    requires Collected(given, freshId, order, ids)
    ensures var key := ValidKey(r);
            if key.None? then Collected(given + [r], freshId, order, ids)
            else Collected(given + [r], freshId,
                           if key.value in ids then order else order + [key.value],
                           ids[key.value := if r.id.Some? && r.id.value != "" then r.id.value else freshId(|given|)])
  {
    assert (given + [r])[..|given|] == given;
    var key, keys := ValidKey(r), ValidKeys(given);
    if key.Some? {
      DedupAppend(keys, key.value);
      assert ValidKeys(given + [r]) == keys + [key.value];
    } else {
      assert ValidKeys(given + [r]) == keys;
    }
  }

  // What a list of entries comes to. A grant's key is said by an entry, and an entry's key is a
  // grant's;
  ghost predicate SaidExactly(given: seq<Raw>, keys: seq<Key>) {
    && NoDuplicates(keys)
    && forall key :: key in keys <==> SomeoneSays(given, key)
  }

  ghost predicate SomeoneSays(given: seq<Raw>, key: Key) {
    exists r <- given :: Says(r, key)
  }

  lemma SomeoneSaysNext(given: seq<Raw>, r: Raw, key: Key)
    ensures SomeoneSays(given + [r], key) <==> SomeoneSays(given, key) || Says(r, key)
  {
    if SomeoneSays(given, key) {
      var said :| said in given && Says(said, key);
      assert said in given + [r];
    }
    assert (given + [r])[|given|] == r;
  }

  // its id is that of the last entry that says its key, or a fresh one for an entry without;
  ghost predicate IsLastEntry(given: seq<Raw>, freshId: nat -> string, g: Normal, n: nat) {
    && n < |given| && Says(given[n], g.key) && (forall m :: n < m < |given| ==> !Says(given[m], g.key))
    && g.id == if given[n].id.Some? && given[n].id.value != "" then given[n].id.value else freshId(n)
  }

  ghost predicate HasLastId(given: seq<Raw>, freshId: nat -> string, g: Normal) {
    exists n: nat :: IsLastEntry(given, freshId, g, n)
  }

  // and the key that is said first comes first.
  ghost predicate SaidBefore(given: seq<Raw>, key: Key, later: Key) {
    exists n: nat :: n < |given| && Says(given[n], key) && forall m :: 0 <= m <= n ==> !Says(given[m], later)
  }

  lemma {:induction false} ValidKeysAreSaid(given: seq<Raw>)
    ensures SaidExactly(given, Dedup(ValidKeys(given)))
    decreases |given|
  {
    DedupFacts(ValidKeys(given));
    if given != [] {
      var init, r := given[..|given| - 1], given[|given| - 1];
      ValidKeysAreSaid(init);
      DedupFacts(ValidKeys(init));
      forall key ensures key in ValidKeys(given) <==> SomeoneSays(given, key) {
        ValidKeyIs(r, key);
        SomeoneSaysNext(init, r, key);
        assert given == init + [r] && (key in ValidKeys(init) <==> SomeoneSays(init, key));
      }
    }
  }

  lemma LastEntryStays(given: seq<Raw>, r: Raw, freshId: nat -> string, g: Normal, n: nat)
    requires IsLastEntry(given, freshId, g, n) && !Says(r, g.key)
    ensures IsLastEntry(given + [r], freshId, g, n)
  {
  }

  lemma {:induction false} LastIdIsLast(given: seq<Raw>, freshId: nat -> string, g: Normal)
    requires g.key in ValidKeys(given) && g.id == LastId(given, g.key, freshId)
    ensures HasLastId(given, freshId, g)
    decreases |given|
  {
    var n := |given| - 1;
    ValidKeyIs(given[n], g.key);
    if Says(given[n], g.key) {
      assert IsLastEntry(given, freshId, g, n);
    } else {
      LastIdIsLast(given[..n], freshId, g);
      var k: nat :| IsLastEntry(given[..n], freshId, g, k);
      LastEntryStays(given[..n], given[n], freshId, g, k);
      assert given[..n] + [given[n]] == given;
    }
  }

  lemma SaidBeforeStays(given: seq<Raw>, r: Raw, key: Key, later: Key)
    requires SaidBefore(given, key, later)
    ensures SaidBefore(given + [r], key, later)
  {
    var n: nat :| n < |given| && Says(given[n], key) && forall m :: 0 <= m <= n ==> !Says(given[m], later);
    assert (given + [r])[n] == given[n] && forall m :: 0 <= m <= n ==> (given + [r])[m] == given[m];
  }

  lemma NewIsSaidLast(given: seq<Raw>, r: Raw, key: Key, later: Key)
    requires key in ValidKeys(given) && later !in ValidKeys(given)
    ensures SaidBefore(given + [r], key, later)
  {
    ValidKeysAreSaid(given);
    DedupFacts(ValidKeys(given));
    assert SomeoneSays(given, key) && !SomeoneSays(given, later);
    var said :| said in given && Says(said, key);
    var n: nat :| n < |given| && given[n] == said;
    forall m | 0 <= m <= n ensures !Says((given + [r])[m], later) {
      assert (given + [r])[m] in given;
    }
    assert (given + [r])[n] == said;
  }

  lemma {:induction false} KeysAreInOrder(given: seq<Raw>, i: nat, j: nat)
    requires i < j < |Dedup(ValidKeys(given))|
    ensures SaidBefore(given, Dedup(ValidKeys(given))[i], Dedup(ValidKeys(given))[j])
    decreases |given|
  {
    var init, r := given[..|given| - 1], given[|given| - 1];
    assert given == init + [r];
    var keys, before := Dedup(ValidKeys(given)), Dedup(ValidKeys(init));
    DedupFacts(ValidKeys(init));
    if ValidKey(r).Some? {
      DedupAppend(ValidKeys(init), ValidKey(r).value);
    }
    if j < |before| {
      KeysAreInOrder(init, i, j);
      SaidBeforeStays(init, r, keys[i], keys[j]);
    } else {
      assert before[i] in before;
      NewIsSaidLast(init, r, keys[i], keys[j]);
    }
  }

  lemma RowsAreSaid(resourceType: string, resourceId: Id, given: seq<Raw>, g: Grant)
    ensures g in AsRows(resourceType, resourceId, Dedup(ValidKeys(given))) <==>
            && g.resourceType == resourceType && g.resourceId == resourceId
            && SomeoneSays(given, Key(g.principalType, g.principalId, g.permission))
  {
    var keys := Dedup(ValidKeys(given));
    var key := Key(g.principalType, g.principalId, g.permission);
    ValidKeysAreSaid(given);
    if g.resourceType == resourceType && g.resourceId == resourceId && key in keys {
      var i :| 0 <= i < |keys| && keys[i] == key;
      assert AsRows(resourceType, resourceId, keys)[i] == g;
    }
  }

  // Valid entries only, one per key, in the order keys first occur, with the last id given.
  method NormalizeAccessGrants(raws: Option<seq<Raw>>, freshId: nat -> string) returns (grants: seq<Normal>)
    ensures var given := if raws.Some? then raws.value else [];
            && KeysOf(grants) == Dedup(ValidKeys(given))
            && SaidExactly(given, KeysOf(grants))
            && (forall g <- grants :: HasLastId(given, freshId, g))
            && (forall i, j :: 0 <= i < j < |grants| ==> SaidBefore(given, grants[i].key, grants[j].key))
  {
    if raws.None? || raws.value == [] {
      return [];
    }
    var given := raws.value;
    var order: seq<Key> := [];
    var ids: map<Key, string> := map[];
    for i := 0 to |given|
      invariant Collected(given[..i], freshId, order, ids)
    {
      var r := given[i];
      CollectedNext(given[..i], freshId, order, ids, r);
      assert given[..i + 1] == given[..i] + [r];
      var key := ValidKey(r);
      if key.None? {
        continue;
      }
      if key.value !in ids {
        order := order + [key.value];
      }
      ids := ids[key.value := if r.id.Some? && r.id.value != "" then r.id.value else freshId(i)];
    }
    assert given[..|given|] == given;
    DedupFacts(ValidKeys(given));
    grants := seq(|order|, i requires 0 <= i < |order| => Normal(ids[order[i]], order[i]));
    assert KeysOf(grants) == order;
    ValidKeysAreSaid(given);
    forall g | g in grants ensures HasLastId(given, freshId, g) {
      LastIdIsLast(given, freshId, g);
    }
    forall i, j | 0 <= i < j < |grants| ensures SaidBefore(given, grants[i].key, grants[j].key) {
      KeysAreInOrder(given, i, j);
    }
  }
}
