/**
 The older form of access data, one dictionary per resource with group and user lists for
 reading and writing, and its conversion to grants and back.
 */
module LegacyAccess {
  import opened Wrappers
  import opened Sequences
  import opened AccessGrants

  datatype PermData = PermData(groupIds: Option<seq<Id>>, userIds: Option<seq<Id>>)

  // Null is the JSON null; a missing permission is None.
  datatype AccessControl = Null | Object(read: Option<PermData>, write: Option<PermData>)

  const PRIVATE := Object(None, None)

  function Groups(data: Option<PermData>): seq<Id> {
    if data.Some? && data.value.groupIds.Some? then data.value.groupIds.value else []
  }

  function Users(data: Option<PermData>): seq<Id> {
    if data.Some? && data.value.userIds.Some? then data.value.userIds.value else []
  }

  function RowsFor(resourceType: string, resourceId: Id, principalType: string, ids: seq<Id>, permission: string)
    : seq<Grant>
  {
    if ids == [] then []
    else
      RowsFor(resourceType, resourceId, principalType, ids[..|ids| - 1], permission) +
      [Grant(resourceType, resourceId, principalType, ids[|ids| - 1], permission)]
  }

  function RowsOf(resourceType: string, resourceId: Id, data: Option<PermData>, permission: string): seq<Grant> {
    RowsFor(resourceType, resourceId, "group", Groups(data), permission) +
    RowsFor(resourceType, resourceId, "user", Users(data), permission)
  }

  function ToGrants(resourceType: string, resourceId: Id, ac: AccessControl): seq<Grant> {
    if ac.Null? then
      if resourceType == "file" then [] else [Grant(resourceType, resourceId, "user", "*", "read")]
    else RowsOf(resourceType, resourceId, ac.read, "read") + RowsOf(resourceType, resourceId, ac.write, "write")
  }

  method AccessControlToGrants(resourceType: string, resourceId: Id, ac: AccessControl) returns (grants: seq<Grant>)
    ensures grants == ToGrants(resourceType, resourceId, ac)
  {
    grants := [];
    if ac.Null? {
      if resourceType != "file" {
        grants := grants + [Grant(resourceType, resourceId, "user", "*", "read")];
      }
      return;
    }
    if ac == PRIVATE {
      return;
    }
    grants := AppendRows(grants, resourceType, resourceId, ac.read, "read");
    grants := AppendRows(grants, resourceType, resourceId, ac.write, "write");
  }

  // One turn of the loop over permissions.
  method AppendRows(before: seq<Grant>, resourceType: string, resourceId: Id, data: Option<PermData>,
                    permission: string)
    returns (grants: seq<Grant>)
    ensures grants == before + RowsOf(resourceType, resourceId, data, permission)
  {
    grants := before;
    var groups, users := Groups(data), Users(data);
    for i := 0 to |groups|
      invariant grants == before + RowsFor(resourceType, resourceId, "group", groups[..i], permission)
    {
      assert groups[..i + 1][..i] == groups[..i];
      grants := grants + [Grant(resourceType, resourceId, "group", groups[i], permission)];
    }
    assert groups[..|groups|] == groups;
    ghost var middle := grants;
    for i := 0 to |users|
      invariant grants == middle + RowsFor(resourceType, resourceId, "user", users[..i], permission)
    {
      assert users[..i + 1][..i] == users[..i];
      grants := grants + [Grant(resourceType, resourceId, "user", users[i], permission)];
    }
    assert users[..|users|] == users;
  }

  // ---- Back again ----

  predicate PublicRead(g: Grant) {
    g.principalType == "user" && g.principalId == "*" && g.permission == "read"
  }

  // The ids that grants of one kind name, in order; public read is not listed.
  function Ids(grants: seq<Grant>, principalType: string, permission: string): seq<Id> {
    if grants == [] then []
    else
      var init := Ids(grants[..|grants| - 1], principalType, permission);
      var g := grants[|grants| - 1];
      if g.principalType == principalType && g.permission == permission && !PublicRead(g) then init + [g.principalId]
      else init
  }

  function Full(groups: seq<Id>, users: seq<Id>): Option<PermData> {
    Some(PermData(Some(Dedup(groups)), Some(Dedup(users))))
  }

  function FromGrants(grants: seq<Grant>): AccessControl {
    if grants == [] then PRIVATE
    else if exists g <- grants :: PublicRead(g) then Null
    else Object(Full(Ids(grants, "group", "read"), Ids(grants, "user", "read")),
                Full(Ids(grants, "group", "write"), Ids(grants, "user", "write")))
  }

  // The list of one kind, extended by one grant.
  function Listing(ids: seq<Id>, g: Grant, principalType: string, permission: string): seq<Id> {
    if g.principalType == principalType && g.permission == permission && g.principalId !in ids then
      ids + [g.principalId]
    else ids
  }

  lemma ListingIsNext(grants: seq<Grant>, g: Grant, principalType: string, permission: string)
    requires !PublicRead(g)
    ensures Dedup(Ids(grants + [g], principalType, permission)) ==
            Listing(Dedup(Ids(grants, principalType, permission)), g, principalType, permission)
  {
    assert (grants + [g])[..|grants|] == grants;
    var ids := Ids(grants, principalType, permission);
    DedupAppend(ids, g.principalId);
    DedupFacts(ids);
  }

  method GrantsToAccessControl(grants: seq<Grant>) returns (ac: AccessControl)
    ensures ac == FromGrants(grants)
  {
    if grants == [] {
      return PRIVATE;
    }
    var readGroups, readUsers, writeGroups, writeUsers: seq<Id> := [], [], [], [];
    var isPublic := false;
    for i := 0 to |grants|
      invariant isPublic <==> exists g <- grants[..i] :: PublicRead(g)
      invariant readGroups == Dedup(Ids(grants[..i], "group", "read"))
      invariant readUsers == Dedup(Ids(grants[..i], "user", "read"))
      invariant writeGroups == Dedup(Ids(grants[..i], "group", "write"))
      invariant writeUsers == Dedup(Ids(grants[..i], "user", "write"))
    {
      var g := grants[i];
      assert grants[..i + 1] == grants[..i] + [g];
      if PublicRead(g) {
        assert grants[..i + 1][..i] == grants[..i];
        isPublic := true;
        continue;
      }
      ListingIsNext(grants[..i], g, "group", "read");
      ListingIsNext(grants[..i], g, "user", "read");
      ListingIsNext(grants[..i], g, "group", "write");
      ListingIsNext(grants[..i], g, "user", "write");
      if g.permission !in {"read", "write"} {
        continue;
      }
      if g.permission == "read" {
        readGroups := Listing(readGroups, g, "group", "read");
        readUsers := Listing(readUsers, g, "user", "read");
      } else {
        writeGroups := Listing(writeGroups, g, "group", "write");
        writeUsers := Listing(writeUsers, g, "user", "write");
      }
    }
    assert grants[..|grants|] == grants;
    if isPublic {
      return Null;
    }
    return Object(Some(PermData(Some(readGroups), Some(readUsers))),
                  Some(PermData(Some(writeGroups), Some(writeUsers))));
  }

  // ---- The round trip ----

  // Lists without repetition, both permissions present; public reading is null, no entries
  // at all is the empty dictionary.
  function NormalForm(resourceType: string, ac: AccessControl): AccessControl {
    if ac.Null? then
      if resourceType == "file" then PRIVATE else Null
    else if Groups(ac.read) == [] && Users(ac.read) == [] && Groups(ac.write) == [] && Users(ac.write) == [] then
      PRIVATE
    else if "*" in Users(ac.read) then Null
    else Object(Full(Groups(ac.read), Users(ac.read)), Full(Groups(ac.write), Users(ac.write)))
  }

  lemma {:induction false} IdsAppend(s: seq<Grant>, t: seq<Grant>, principalType: string, permission: string)
    ensures Ids(s + t, principalType, permission) ==
            Ids(s, principalType, permission) + Ids(t, principalType, permission)
    decreases |t|
  {
    if t == [] {
      assert s + t == s;
    } else {
      assert (s + t)[..|s + t| - 1] == s + t[..|t| - 1];
      IdsAppend(s, t[..|t| - 1], principalType, permission);
    }
  }

  lemma {:induction false} IdsOfRows(resourceType: string, resourceId: Id, kind: string, ids: seq<Id>, perm: string,
                                     principalType: string, permission: string)
    requires kind == "user" && perm == "read" ==> "*" !in ids
    ensures Ids(RowsFor(resourceType, resourceId, kind, ids, perm), principalType, permission) ==
            if kind == principalType && perm == permission then ids else []
    decreases |ids|
  {
    if ids != [] {
      assert ids == ids[..|ids| - 1] + [ids[|ids| - 1]];
      IdsOfRows(resourceType, resourceId, kind, ids[..|ids| - 1], perm, principalType, permission);
      var rows := RowsFor(resourceType, resourceId, kind, ids, perm);
      assert rows[..|rows| - 1] == RowsFor(resourceType, resourceId, kind, ids[..|ids| - 1], perm);
    }
  }

  lemma IdsOfGrants(resourceType: string, resourceId: Id, ac: AccessControl, principalType: string, permission: string)
    requires ac.Object? && "*" !in Users(ac.read)
    requires principalType in {"user", "group"} && permission in {"read", "write"}
    ensures Ids(ToGrants(resourceType, resourceId, ac), principalType, permission) ==
            var data := if permission == "read" then ac.read else ac.write;
            if principalType == "group" then Groups(data) else Users(data)
  {
    var read := RowsOf(resourceType, resourceId, ac.read, "read");
    var write := RowsOf(resourceType, resourceId, ac.write, "write");
    IdsAppend(read, write, principalType, permission);
    IdsOfBoth(resourceType, resourceId, ac.read, "read", principalType, permission);
    IdsOfBoth(resourceType, resourceId, ac.write, "write", principalType, permission);
    assert Ids(read, principalType, permission) + [] == Ids(read, principalType, permission);
    assert [] + Ids(write, principalType, permission) == Ids(write, principalType, permission);
  }

  lemma IdsOfBoth(resourceType: string, resourceId: Id, data: Option<PermData>, perm: string,
                  principalType: string, permission: string)
    requires perm == "read" ==> "*" !in Users(data)
    requires principalType in {"user", "group"}
    ensures Ids(RowsOf(resourceType, resourceId, data, perm), principalType, permission) ==
            if perm != permission then [] else if principalType == "group" then Groups(data) else Users(data)
  {
    var groups := RowsFor(resourceType, resourceId, "group", Groups(data), perm);
    var users := RowsFor(resourceType, resourceId, "user", Users(data), perm);
    IdsAppend(groups, users, principalType, permission);
    IdsOfRows(resourceType, resourceId, "group", Groups(data), perm, principalType, permission);
    IdsOfRows(resourceType, resourceId, "user", Users(data), perm, principalType, permission);
    var g, u := Ids(groups, principalType, permission), Ids(users, principalType, permission);
    assert Ids(groups + users, principalType, permission) == g + u;
    if principalType == "group" {
      assert u == [] && g + [] == g;
    } else {
      assert g == [] && [] + u == u;
    }
  }

  lemma {:induction false} RowsForMembers(resourceType: string, resourceId: Id, kind: string, ids: seq<Id>,
                                          perm: string)
    ensures |RowsFor(resourceType, resourceId, kind, ids, perm)| == |ids|
    ensures forall g :: g in RowsFor(resourceType, resourceId, kind, ids, perm) <==>
                        g == Grant(resourceType, resourceId, kind, g.principalId, perm) && g.principalId in ids
    decreases |ids|
  {
    if ids != [] {
      assert ids == ids[..|ids| - 1] + [ids[|ids| - 1]];
      RowsForMembers(resourceType, resourceId, kind, ids[..|ids| - 1], perm);
    }
  }

  // Which grants an access-control value stands for.
  lemma ToGrantsMembers(resourceType: string, resourceId: Id, ac: AccessControl)
    requires ac.Object?
    ensures |ToGrants(resourceType, resourceId, ac)| ==
            |Groups(ac.read)| + |Users(ac.read)| + |Groups(ac.write)| + |Users(ac.write)|
    ensures forall g :: g in ToGrants(resourceType, resourceId, ac) <==>
              && g.resourceType == resourceType && g.resourceId == resourceId
              && ((g.permission == "read" && ((g.principalType == "group" && g.principalId in Groups(ac.read)) ||
                                              (g.principalType == "user" && g.principalId in Users(ac.read)))) ||
                  (g.permission == "write" && ((g.principalType == "group" && g.principalId in Groups(ac.write)) ||
                                               (g.principalType == "user" && g.principalId in Users(ac.write)))))
  {
    RowsForMembers(resourceType, resourceId, "group", Groups(ac.read), "read");
    RowsForMembers(resourceType, resourceId, "user", Users(ac.read), "read");
    RowsForMembers(resourceType, resourceId, "group", Groups(ac.write), "write");
    RowsForMembers(resourceType, resourceId, "user", Users(ac.write), "write");
  }

  // The permission's data lists the id of such a principal.
  ghost predicate Listed(data: Option<PermData>, principalType: string, id: Id) {
    data.Some? &&
    if principalType == "group" then data.value.groupIds.Some? && id in data.value.groupIds.value
    else principalType == "user" && data.value.userIds.Some? && id in data.value.userIds.value
  }

  // The grants are those listed for reading and for writing; null is everyone's reading, except
  // for files, and private is none.
  lemma GrantsAreListed(resourceType: string, resourceId: Id, ac: AccessControl, g: Grant)
    ensures g in ToGrants(resourceType, resourceId, ac) <==>
            && g.resourceType == resourceType && g.resourceId == resourceId
            && if ac.Null? then
                 resourceType != "file" && g.principalType == "user" && g.principalId == "*" && g.permission == "read"
               else
                 || (g.permission == "read" && Listed(ac.read, g.principalType, g.principalId))
                 || (g.permission == "write" && Listed(ac.write, g.principalType, g.principalId))
  {
    if ac.Object? {
      ToGrantsMembers(resourceType, resourceId, ac);
    }
  }

  // A list that is there, without an id twice.
  ghost predicate ListsOnce(ids: Option<seq<Id>>) {
    ids.Some? && NoDuplicates(ids.value)
  }

  lemma {:induction false} IdsAre(grants: seq<Grant>, principalType: string, permission: string, id: Id)
    requires !(principalType == "user" && id == "*" && permission == "read")
    ensures id in Ids(grants, principalType, permission) <==>
            exists g <- grants :: g.principalType == principalType && g.permission == permission && g.principalId == id
    decreases |grants|
  {
    if grants != [] {
      var init, last := grants[..|grants| - 1], grants[|grants| - 1];
      IdsAre(init, principalType, permission, id);
      assert forall g :: g in grants <==> g in init || g == last;
    }
  }

  lemma FullIsListed(grants: seq<Grant>, permission: string, principalType: string, id: Id)
    requires !(principalType == "user" && id == "*" && permission == "read")
    requires principalType == "group" || principalType == "user"
    ensures var data := Full(Ids(grants, "group", permission), Ids(grants, "user", permission));
            && data.Some? && ListsOnce(data.value.groupIds) && ListsOnce(data.value.userIds)
            && (Listed(data, principalType, id) <==>
                  exists g <- grants ::
                    g.principalType == principalType && g.permission == permission && g.principalId == id)
  {
    DedupFacts(Ids(grants, "group", permission));
    DedupFacts(Ids(grants, "user", permission));
    IdsAre(grants, principalType, permission, id);
  }

  // Some grant lets everyone read.
  ghost predicate EveryoneReads(grants: seq<Grant>) {
    exists g <- grants :: g.principalType == "user" && g.principalId == "*" && g.permission == "read"
  }

  // Grants become null when one of them lets everyone read, private when there are none, and
  // otherwise lists without repetition that name exactly their principals.
  lemma ListedAreGranted(grants: seq<Grant>, principalType: string, id: Id)
    requires principalType == "group" || principalType == "user"
    ensures var ac := FromGrants(grants);
            && (ac == Null <==> EveryoneReads(grants))
            && (grants == [] ==> ac == PRIVATE)
            && (grants != [] && ac != Null ==>
                  && ac.read.Some? && ListsOnce(ac.read.value.groupIds) && ListsOnce(ac.read.value.userIds)
                  && ac.write.Some? && ListsOnce(ac.write.value.groupIds) && ListsOnce(ac.write.value.userIds)
                  && (Listed(ac.read, principalType, id) <==>
                        exists g <- grants ::
                          g.principalType == principalType && g.permission == "read" && g.principalId == id)
                  && (Listed(ac.write, principalType, id) <==>
                        exists g <- grants ::
                          g.principalType == principalType && g.permission == "write" && g.principalId == id))
  {
    assert (exists g <- grants :: PublicRead(g)) <==> EveryoneReads(grants);
    if grants != [] && !EveryoneReads(grants) {
      FullIsListed(grants, "write", principalType, id);
      if principalType == "user" && id == "*" {
        FullIsListed(grants, "read", principalType, "");
        NobodyReadsPublicly(grants);
      } else {
        FullIsListed(grants, "read", principalType, id);
      }
    }
  }

  lemma {:induction false} NobodyReadsPublicly(grants: seq<Grant>)
    ensures "*" !in Dedup(Ids(grants, "user", "read"))
    decreases |grants|
  {
    DedupFacts(Ids(grants, "user", "read"));
    if grants != [] {
      DedupFacts(Ids(grants[..|grants| - 1], "user", "read"));
      NobodyReadsPublicly(grants[..|grants| - 1]);
    }
  }

  // Converting to grants and back gives the normal form.
  lemma RoundTrip(resourceType: string, resourceId: Id, ac: AccessControl)
    ensures FromGrants(ToGrants(resourceType, resourceId, ac)) == NormalForm(resourceType, ac)
  {
    var grants := ToGrants(resourceType, resourceId, ac);
    if ac.Null? {
      if resourceType != "file" {
        assert PublicRead(grants[0]);
      }
    } else {
      ToGrantsMembers(resourceType, resourceId, ac);
      if "*" in Users(ac.read) {
        assert Grant(resourceType, resourceId, "user", "*", "read") in grants;
      } else if grants != [] {
        IdsOfGrants(resourceType, resourceId, ac, "group", "read");
        IdsOfGrants(resourceType, resourceId, ac, "user", "read");
        IdsOfGrants(resourceType, resourceId, ac, "group", "write");
        IdsOfGrants(resourceType, resourceId, ac, "user", "write");
      }
    }
  }

  // ---- What the round trip does to access ----

  ghost predicate Means(resourceType: string, resourceId: Id, ac: AccessControl, user: Id, groups: set<Id>,
                        permission: string) {
    Granted(ToGrants(resourceType, resourceId, ac), user, groups, resourceType, resourceId, permission)
  }

  // The legacy form cannot say "everyone may read, and these may write", nor "everyone may
  // read" of a file.
  predicate LosesAccess(resourceType: string, ac: AccessControl) {
    ac.Object? && "*" in Users(ac.read) && (resourceType == "file" || Groups(ac.write) != [] || Users(ac.write) != [])
  }

  lemma ObjectMeans(resourceType: string, resourceId: Id, ac: AccessControl, user: Id, groups: set<Id>,
                    permission: string)
    requires ac.Object?
    ensures Means(resourceType, resourceId, ac, user, groups, permission) <==>
            || (permission == "read" && InLists(Groups(ac.read), Users(ac.read), user, groups))
            || (permission == "write" && InLists(Groups(ac.write), Users(ac.write), user, groups))
  {
    ToGrantsMembers(resourceType, resourceId, ac);
    forall kind: string, id: Id, perm: string
      ensures Grant(resourceType, resourceId, kind, id, perm) in ToGrants(resourceType, resourceId, ac) ==>
                About(Grant(resourceType, resourceId, kind, id, perm), resourceType, resourceId, perm)
    {
    }
    var grants := ToGrants(resourceType, resourceId, ac);
    if permission == "read" && InLists(Groups(ac.read), Users(ac.read), user, groups) {
      var g := Witness(resourceType, resourceId, Groups(ac.read), Users(ac.read), user, groups, permission);
      assert g in grants;
    }
    if permission == "write" && InLists(Groups(ac.write), Users(ac.write), user, groups) {
      var g := Witness(resourceType, resourceId, Groups(ac.write), Users(ac.write), user, groups, permission);
      assert g in grants;
    }
  }

  ghost predicate InLists(groupIds: seq<Id>, userIds: seq<Id>, user: Id, groups: set<Id>) {
    "*" in userIds || user in userIds || exists id <- groupIds :: id in groups
  }

  lemma InListsDedup(groupIds: seq<Id>, userIds: seq<Id>, user: Id, groups: set<Id>)
    ensures InLists(Dedup(groupIds), Dedup(userIds), user, groups) <==> InLists(groupIds, userIds, user, groups)
  {
    DedupFacts(groupIds);
    DedupFacts(userIds);
  }

  lemma Witness(resourceType: string, resourceId: Id, groupIds: seq<Id>, userIds: seq<Id>, user: Id, groups: set<Id>,
                permission: string) returns (g: Grant)
    requires InLists(groupIds, userIds, user, groups)
    ensures About(g, resourceType, resourceId, permission) && Reaches(g, user, groups)
    ensures || (g.principalType == "user" && g.principalId in userIds)
            || (g.principalType == "group" && g.principalId in groupIds)
  {
    if "*" in userIds {
      g := Grant(resourceType, resourceId, "user", "*", permission);
    } else if user in userIds {
      g := Grant(resourceType, resourceId, "user", user, permission);
    } else {
      var id :| id in groupIds && id in groups;
      g := Grant(resourceType, resourceId, "group", id, permission);
    }
  }

  lemma NullMeans(resourceType: string, resourceId: Id, user: Id, groups: set<Id>, permission: string)
    ensures Means(resourceType, resourceId, Null, user, groups, permission) <==>
            resourceType != "file" && permission == "read"
  {
    if resourceType != "file" {
      var g := Grant(resourceType, resourceId, "user", "*", "read");
      assert ToGrants(resourceType, resourceId, Null) == [g] && g in [g];
      assert About(g, resourceType, resourceId, "read") && Reaches(g, user, groups);
    }
  }

  // The round trip leaves everyone's access as it was exactly when nothing of that kind is lost.
  lemma AccessSurvivesIff(resourceType: string, resourceId: Id, ac: AccessControl)
    ensures (forall user, groups, permission ::
               Means(resourceType, resourceId, NormalForm(resourceType, ac), user, groups, permission) <==>
               Means(resourceType, resourceId, ac, user, groups, permission)) <==>
            !LosesAccess(resourceType, ac)
  {
    var normal := NormalForm(resourceType, ac);
    if !LosesAccess(resourceType, ac) {
      forall user, groups, permission
        ensures Means(resourceType, resourceId, normal, user, groups, permission) <==>
                Means(resourceType, resourceId, ac, user, groups, permission)
      {
        NormalFormMeansTheSame(resourceType, resourceId, ac, user, groups, permission);
      }
    } else if resourceType == "file" {
      NullMeans(resourceType, resourceId, "", {}, "read");
      ObjectMeans(resourceType, resourceId, ac, "", {}, "read");
    } else {
      var groups := set id | id in Groups(ac.write);
      var user := if Users(ac.write) != [] then Users(ac.write)[0] else "";
      NullMeans(resourceType, resourceId, user, groups, "write");
      ObjectMeans(resourceType, resourceId, ac, user, groups, "write");
      if Users(ac.write) == [] {
        assert Groups(ac.write)[0] in groups;
      }
    }
  }

  // Everyone may read and "w" may write: the round trip leaves public reading only.
  lemma WriterIsForgotten()
    ensures var ac := Object(Some(PermData(None, Some(["*"]))), Some(PermData(None, Some(["w"]))));
            && NormalForm("model", ac) == Null
            && Means("model", "m", ac, "w", {}, "write")
            && !Means("model", "m", NormalForm("model", ac), "w", {}, "write")
  {
    var ac := Object(Some(PermData(None, Some(["*"]))), Some(PermData(None, Some(["w"]))));
    assert Users(ac.read) == ["*"] && Users(ac.write) == ["w"] && ["*"][0] == "*" && ["w"][0] == "w";
    NullMeans("model", "m", "w", {}, "write");
    ObjectMeans("model", "m", ac, "w", {}, "write");
  }

  lemma NormalFormMeansTheSame(resourceType: string, resourceId: Id, ac: AccessControl,
                               user: Id, groups: set<Id>, permission: string)
    requires !LosesAccess(resourceType, ac)
    ensures Means(resourceType, resourceId, NormalForm(resourceType, ac), user, groups, permission) <==>
            Means(resourceType, resourceId, ac, user, groups, permission)
  {
    var normal := NormalForm(resourceType, ac);
    NullMeans(resourceType, resourceId, user, groups, permission);
    if normal.Object? {
      ObjectMeans(resourceType, resourceId, normal, user, groups, permission);
    }
    if ac.Object? {
      ObjectMeans(resourceType, resourceId, ac, user, groups, permission);
      InListsDedup(Groups(ac.read), Users(ac.read), user, groups);
      InListsDedup(Groups(ac.write), Users(ac.write), user, groups);
    }
  }

  // ---- Storing a legacy value ----

  // Replaces all grants of a resource. A list that repeats an id breaks the table's
  // uniqueness and fails; nothing is stored then.
  method SetAccessControl(table: AccessTable, resourceType: string, resourceId: Id, ac: AccessControl)
    returns (ok: bool)
    requires NoDuplicates(table.rows)
    modifies table
    ensures NoDuplicates(table.rows)
    ensures ok == NoDuplicates(ToGrants(resourceType, resourceId, ac))
    ensures table.rows == if !ok then old(table.rows) else
              Without(old(table.rows), (g: Grant) => g.resourceType == resourceType && g.resourceId == resourceId) +
              ToGrants(resourceType, resourceId, ac)
  {
    var kept := Without(table.rows, (g: Grant) => g.resourceType == resourceType && g.resourceId == resourceId);
    var grants := AccessControlToGrants(resourceType, resourceId, ac);
    AboutOneResource(resourceType, resourceId, ac);
    ok := forall i, j :: 0 <= i < j < |grants| ==> grants[i] != grants[j];
    if ok {
      forall i, j | 0 <= i < |kept| && 0 <= j < |grants| ensures kept[i] != grants[j] {
        assert kept[i] in kept && grants[j] in grants;
      }
      table.rows := kept + grants;
    }
  }

  lemma AboutOneResource(resourceType: string, resourceId: Id, ac: AccessControl)
    ensures forall g <- ToGrants(resourceType, resourceId, ac) ::
              g.resourceType == resourceType && g.resourceId == resourceId
  {
    if ac.Object? {
      ToGrantsMembers(resourceType, resourceId, ac);
    }
  }
}
