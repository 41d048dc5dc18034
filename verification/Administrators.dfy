/** The last-administrator guard of cmd/server/admin_accounts.go: what an account
  update decides and writes, one call alone. */
module Administrators {
  import opened Wrappers

  datatype Group = Group(pk: string, name: string)

  /** A user of the shared directory; `groups` lists group keys. */
  datatype User = User(active: bool, kind: string, groups: seq<string>, email: string)

  datatype Update = Update(role: Option<string>, active: Option<bool>, email: Option<string>, byAdministrator: bool)

  datatype Refusal =
    | NothingAsked | UnknownRole | NoSuchUser | ServiceIdentity | NotHumanAccount | AdminTarget | GroupMissing | LastAdmin

  const ADMINS := "BSYSTEM-Admins"
  const SERVICES := "BSYSTEM-Services"

  const ROLE_GROUPS: map<string, string> := map[
    "admin" := ADMINS,
    "manager" := "BSYSTEM-Managers",
    "developer" := "BSYSTEM-Developers",
    "qa" := "BSYSTEM-QA",
    "support" := "BSYSTEM-Support",
    "devops" := "BSYSTEM-DevOps",
    "customer" := "BSYSTEM-Customers"]

  predicate IsHumanGroup(name: string) {
    exists role :: role in ROLE_GROUPS && ROLE_GROUPS[role] == name
  }

  /** Keys tell groups apart and are not empty. */
  ghost predicate Keyed(groups: seq<Group>) {
    && (forall i :: 0 <= i < |groups| ==> groups[i].pk != "")
    && (forall i, j :: 0 <= i < j < |groups| ==> groups[i].pk != groups[j].pk)
  }

  predicate HasGroup(groups: seq<Group>, u: User, name: string) {
    exists i :: 0 <= i < |groups| && groups[i].name == name && groups[i].pk in u.groups
  }

  predicate IsService(groups: seq<Group>, u: User) {
    HasGroup(groups, u, SERVICES) || u.kind == "service_account" || u.kind == "internal_service_account"
  }

  predicate IsHuman(groups: seq<Group>, u: User) {
    exists role :: role in ROLE_GROUPS && HasGroup(groups, u, ROLE_GROUPS[role])
  }

  predicate IsActiveAdmin(groups: seq<Group>, u: User) {
    u.active && !IsService(groups, u) && HasGroup(groups, u, ADMINS)
  }

  function ActiveAdmins(groups: seq<Group>, users: map<int, User>): set<int> {
    set pk | pk in users && IsActiveAdmin(groups, users[pk])
  }

  /** The keys of the groups that carry a human role. */
  function HumanKeys(groups: seq<Group>): set<string> {
    set i | 0 <= i < |groups| && IsHumanGroup(groups[i].name) :: groups[i].pk
  }

  // ----------------------------------------------------------------- the lists

  /** First occurrences of the non-empty values, in order. */
  function Unique(values: seq<string>): seq<string> {
    if values == [] then []
    else
      var last, before := values[|values| - 1], values[..|values| - 1];
      if last != "" && last !in before then Unique(before) + [last] else Unique(before)
  }

  function Without(values: seq<string>, drop: set<string>): seq<string> {
    if values == [] then []
    else
      var last, before := values[|values| - 1], values[..|values| - 1];
      if last in drop then Without(before, drop) else Without(before, drop) + [last]
  }

  ghost predicate NoRepeats(values: seq<string>) {
    forall i, j :: 0 <= i < j < |values| ==> values[i] != values[j]
  }

  lemma {:induction false} UniqueHolds(values: seq<string>)
    ensures NoRepeats(Unique(values))
    ensures forall v :: v in Unique(values) <==> v in values && v != ""
    ensures NoRepeats(values) && "" !in values ==> Unique(values) == values
  {
    if values != [] {
      UniqueHolds(values[..|values| - 1]);
      assert values == values[..|values| - 1] + [values[|values| - 1]];
    }
  }

  lemma {:induction false} WithoutHolds(values: seq<string>, drop: set<string>)
    ensures forall v :: v in Without(values, drop) <==> v in values && v !in drop
    ensures NoRepeats(values) ==> NoRepeats(Without(values, drop))
  {
    if values != [] {
      WithoutHolds(values[..|values| - 1], drop);
      assert values == values[..|values| - 1] + [values[|values| - 1]];
    }
  }

  lemma {:induction false} WithoutNothing(values: seq<string>, drop: set<string>)
    requires forall v :: v in values ==> v !in drop
    ensures Without(values, drop) == values
  {
    if values != [] {
      WithoutNothing(values[..|values| - 1], drop);
      assert values[|values| - 1] in values && values == values[..|values| - 1] + [values[|values| - 1]];
    }
  }

  method UniqueStrings(values: seq<string>) returns (unique: seq<string>)
    ensures unique == Unique(values)
  {
    var seen: set<string> := {};
    unique := [];
    for i := 0 to |values|
      invariant unique == Unique(values[..i])
      invariant forall v :: v in seen <==> v in values[..i] && v != ""
    {
      assert values[..i + 1][..i] == values[..i];
      assert values[..i + 1] == values[..i] + [values[i]];
      if values[i] != "" && values[i] !in seen {
        seen := seen + {values[i]};
        unique := unique + [values[i]];
      }
    }
    assert values[..|values|] == values;
  }

  // -------------------------------------------------------------- the decision

  function KeyNamed(groups: seq<Group>, name: string): Option<string> {
    if groups == [] then None
    else if groups[0].name == name then Some(groups[0].pk)
    else KeyNamed(groups[1..], name)
  }

  lemma {:induction false} KeyNamedFinds(groups: seq<Group>, name: string)
    ensures match KeyNamed(groups, name)
            case None => forall i :: 0 <= i < |groups| ==> groups[i].name != name
            case Some(pk) => exists i :: 0 <= i < |groups| && groups[i].name == name && groups[i].pk == pk
  {
    if groups != [] && groups[0].name != name {
      KeyNamedFinds(groups[1..], name);
      if KeyNamed(groups[1..], name).Some? {
        var i :| 0 <= i < |groups| - 1 && groups[1..][i].name == name && groups[1..][i].pk == KeyNamed(groups, name).value;
        assert groups[i + 1].name == name;
      } else {
        assert forall i :: 1 <= i < |groups| ==> groups[i] == groups[1..][i - 1];
      }
    }
  }

  /** What the request asks for, before the directory is read. */
  function Asked(u: Update): Option<Refusal> {
    if u.role.None? && u.active.None? && u.email.None? then Some(NothingAsked)
    else if u.role.Some? && u.role.value !in ROLE_GROUPS then Some(UnknownRole)
    else None
  }

  function Barred(groups: seq<Group>, before: User, u: Update): Option<Refusal> {
    if IsService(groups, before) then Some(ServiceIdentity)
    else if !IsHuman(groups, before) then Some(NotHumanAccount)
    else if (HasGroup(groups, before, ADMINS) || u.role == Some("admin")) && !u.byAdministrator then Some(AdminTarget)
    else None
  }

  /** The group keys of a user given a role. */
  function Regrouped(groups: seq<Group>, current: seq<string>, target: string): seq<string> {
    Unique(Without(current, HumanKeys(groups)) + [target])
  }

  function Demotes(groups: seq<Group>, before: User, u: Update): bool {
    && before.active && HasGroup(groups, before, ADMINS)
    && (u.active == Some(false) || (u.role.Some? && u.role != Some("admin")))
  }

  function Patched(before: User, keys: Option<seq<string>>, u: Update): User {
    User(
      if u.active.Some? then u.active.value else before.active,
      before.kind,
      if keys.Some? then keys.value else before.groups,
      if u.email.Some? then u.email.value else before.email)
  }

  datatype Plan = Refused(reason: Refusal) | Write(after: User, demotes: bool)

  /** Everything decided from one reading of the user and the groups. */
  function PlanFor(groups: seq<Group>, before: User, u: Update): Plan {
    if Barred(groups, before, u).Some? then Refused(Barred(groups, before, u).value)
    else if u.role.None? then Write(Patched(before, None, u), Demotes(groups, before, u))
    else if u.role.value !in ROLE_GROUPS then Refused(UnknownRole)
    else
      match KeyNamed(groups, ROLE_GROUPS[u.role.value])
      case None => Refused(GroupMissing)
      case Some(target) =>
        Write(Patched(before, Some(Regrouped(groups, before.groups, target)), u), Demotes(groups, before, u))
  }

  // ------------------------------------------------------------ what it leaves

  lemma SomeKeyNamed(groups: seq<Group>, name: string, target: string) returns (i: nat)
    requires KeyNamed(groups, name) == Some(target)
    ensures i < |groups| && groups[i] == Group(target, name)
  {
    KeyNamedFinds(groups, name);
    i :| 0 <= i < |groups| && groups[i].name == name && groups[i].pk == target;
  }

  /** A role change leaves the target in exactly the human group asked for, and
    every other group it was in, in order. */
  lemma RoleChangeMovesOnlyTheRole(groups: seq<Group>, current: seq<string>, name: string, target: string)
    requires Keyed(groups) && IsHumanGroup(name) && KeyNamed(groups, name) == Some(target)
    ensures var after := Regrouped(groups, current, target);
            && (forall pk :: pk in after && pk in HumanKeys(groups) <==> pk == target)
            && NoRepeats(after)
            && Without(after, HumanKeys(groups)) == Unique(Without(current, HumanKeys(groups)))
            && (NoRepeats(current) && "" !in current ==>
                  Without(after, HumanKeys(groups)) == Without(current, HumanKeys(groups)))
  {
    var human := HumanKeys(groups);
    var kept := Without(current, human);
    RegroupedIs(groups, current, name, target);
    WithoutHolds(current, human);
    UniqueHolds(kept);
    hide HumanKeys, Regrouped, Unique, KeyNamed, IsHumanGroup;
    var after := Unique(kept) + [target];
    assert after[..|after| - 1] == Unique(kept);
    WithoutNothing(Unique(kept), human);
  }

  lemma RegroupedIs(groups: seq<Group>, current: seq<string>, name: string, target: string)
    requires Keyed(groups) && IsHumanGroup(name) && KeyNamed(groups, name) == Some(target)
    ensures target in HumanKeys(groups)
    ensures Regrouped(groups, current, target) == Unique(Without(current, HumanKeys(groups))) + [target]
  {
    hide IsHumanGroup;
    var i := SomeKeyNamed(groups, name, target);
    var kept := Without(current, HumanKeys(groups));
    WithoutHolds(current, HumanKeys(groups));
    assert (kept + [target])[..|kept|] == kept;
  }

  lemma RegroupedHas(groups: seq<Group>, before: User, name: string, target: string, other: string, u: Update)
    requires Keyed(groups) && IsHumanGroup(name) && KeyNamed(groups, name) == Some(target)
    ensures var after := Patched(before, Some(Regrouped(groups, before.groups, target)), u);
            && (IsHumanGroup(other) ==> (HasGroup(groups, after, other) <==> other == name))
            && (!IsHumanGroup(other) ==> (HasGroup(groups, after, other) <==> HasGroup(groups, before, other)))
  {
    hide IsHumanGroup;
    var i := SomeKeyNamed(groups, name, target);
    var human, keys := HumanKeys(groups), Regrouped(groups, before.groups, target);
    WithoutHolds(before.groups, human);
    UniqueHolds(Without(before.groups, human) + [target]);
    forall k | 0 <= k < |groups|
      ensures groups[k].pk in human <==> IsHumanGroup(groups[k].name)
      ensures groups[k].pk in keys <==> k == i || (groups[k].pk in before.groups && !IsHumanGroup(groups[k].name))
    {
      if groups[k].pk in human {
        var m :| 0 <= m < |groups| && IsHumanGroup(groups[m].name) && groups[m].pk == groups[k].pk;
        assert m == k;
      }
    }
  }

  lemma HumanNames(role: string)
    requires role in ROLE_GROUPS
    ensures IsHumanGroup(ROLE_GROUPS[role]) && IsHumanGroup(ADMINS) && !IsHumanGroup(SERVICES)
    ensures ROLE_GROUPS[role] == ADMINS <==> role == "admin"
  {
    assert ROLE_GROUPS["admin"] == ADMINS;
  }

  /** The guard looks at exactly the updates that cost an active administrator. */
  lemma DemotesExactlyWhen(groups: seq<Group>, before: User, u: Update)
    requires Keyed(groups) && PlanFor(groups, before, u).Write?
    ensures var plan := PlanFor(groups, before, u);
            plan.demotes <==> IsActiveAdmin(groups, before) && !IsActiveAdmin(groups, plan.after)
  {
    hide KeyNamed, Regrouped, IsHuman, IsHumanGroup;
    if u.role.Some? {
      var name := ROLE_GROUPS[u.role.value];
      var target := KeyNamed(groups, name).value;
      HumanNames(u.role.value);
      RegroupedHas(groups, before, name, target, ADMINS, u);
      RegroupedHas(groups, before, name, target, SERVICES, u);
    }
  }

  datatype Outcome = Declined(reason: Refusal) | Updated(before: User, after: User)

  /** One update alone, from the request to the directory it leaves. */
  function Updating(groups: seq<Group>, users: map<int, User>, pk: int, u: Update): Outcome {
    if Asked(u).Some? then Declined(Asked(u).value)
    else if pk !in users then Declined(NoSuchUser)
    else
      match PlanFor(groups, users[pk], u)
      case Refused(reason) => Declined(reason)
      case Write(after, demotes) =>
        if demotes && |ActiveAdmins(groups, users)| <= 1 then Declined(LastAdmin) else Updated(users[pk], after)
  }

  lemma OneUserChanged(groups: seq<Group>, users: map<int, User>, pk: int, after: User)
    requires pk in users
    ensures var left := ActiveAdmins(groups, users[pk := after]);
            left == if IsActiveAdmin(groups, after) then ActiveAdmins(groups, users) + {pk}
                    else ActiveAdmins(groups, users) - {pk}
    ensures pk in ActiveAdmins(groups, users) <==> IsActiveAdmin(groups, users[pk])
  {
  }

  /** With an administrator to begin with, an update is refused for being the
    last one exactly when carrying it out would leave none. */
  lemma LastAdminExactlyWhen(groups: seq<Group>, users: map<int, User>, pk: int, u: Update)
    requires Keyed(groups) && ActiveAdmins(groups, users) != {}
    requires Asked(u).None? && pk in users && PlanFor(groups, users[pk], u).Write?
    ensures Updating(groups, users, pk, u) == Declined(LastAdmin) <==>
            ActiveAdmins(groups, users[pk := PlanFor(groups, users[pk], u).after]) == {}
    ensures Updating(groups, users, pk, u).Updated? || Updating(groups, users, pk, u) == Declined(LastAdmin)
  {
    hide IsActiveAdmin, Barred, Demotes, Patched, KeyNamed, Regrouped, Asked;
    var plan, admins := PlanFor(groups, users[pk], u), ActiveAdmins(groups, users);
    DemotesExactlyWhen(groups, users[pk], u);
    OneUserChanged(groups, users, pk, plan.after);
    if plan.demotes {
      if |admins| <= 1 {
        OnlyOne(admins, pk);
      } else {
        assert |admins - {pk}| == |admins| - 1;
      }
    } else if IsActiveAdmin(groups, users[pk]) {
      assert pk in ActiveAdmins(groups, users[pk := plan.after]);
    }
  }

  lemma OnlyOne(s: set<int>, x: int)
    requires x in s && |s| <= 1
    ensures s - {x} == {}
  {
    assert |s - {x}| == |s| - 1;
  }

  // -------------------------------------------------------------- the refusals

  /** Some group of this name lists the user. */
  ghost predicate InGroup(groups: seq<Group>, u: User, name: string) {
    exists g :: g in groups && g.name == name && g.pk in u.groups
  }

  lemma InGroupIsHasGroup(groups: seq<Group>, u: User, name: string)
    ensures HasGroup(groups, u, name) <==> InGroup(groups, u, name)
  {
  }

  const HUMAN_GROUPS := {
    "BSYSTEM-Admins", "BSYSTEM-Managers", "BSYSTEM-Developers", "BSYSTEM-QA",
    "BSYSTEM-Support", "BSYSTEM-DevOps", "BSYSTEM-Customers"}

  lemma HumanGroupsAre(name: string)
    ensures IsHumanGroup(name) <==> name in HUMAN_GROUPS
  {
    assert ROLE_GROUPS["admin"] == "BSYSTEM-Admins" && ROLE_GROUPS["manager"] == "BSYSTEM-Managers";
    assert ROLE_GROUPS["developer"] == "BSYSTEM-Developers" && ROLE_GROUPS["qa"] == "BSYSTEM-QA";
    assert ROLE_GROUPS["support"] == "BSYSTEM-Support" && ROLE_GROUPS["devops"] == "BSYSTEM-DevOps";
    assert ROLE_GROUPS["customer"] == "BSYSTEM-Customers";
  }

  lemma ServiceAndHumanAre(groups: seq<Group>, u: User)
    ensures IsService(groups, u) <==>
              u.kind == "service_account" || u.kind == "internal_service_account" || InGroup(groups, u, "BSYSTEM-Services")
    ensures IsHuman(groups, u) <==> exists name :: name in HUMAN_GROUPS && InGroup(groups, u, name)
    ensures IsActiveAdmin(groups, u) <==>
              && u.active && InGroup(groups, u, "BSYSTEM-Admins") && !InGroup(groups, u, "BSYSTEM-Services")
              && u.kind != "service_account" && u.kind != "internal_service_account"
  {
    InGroupIsHasGroup(groups, u, "BSYSTEM-Services");
    InGroupIsHasGroup(groups, u, "BSYSTEM-Admins");
    if IsHuman(groups, u) {
      var role :| role in ROLE_GROUPS && HasGroup(groups, u, ROLE_GROUPS[role]);
      HumanGroupsAre(ROLE_GROUPS[role]);
      InGroupIsHasGroup(groups, u, ROLE_GROUPS[role]);
    }
    forall name | name in HUMAN_GROUPS && InGroup(groups, u, name)
      ensures IsHuman(groups, u)
    {
      HumanGroupsAre(name);
      InGroupIsHasGroup(groups, u, name);
      var role :| role in ROLE_GROUPS && ROLE_GROUPS[role] == name;
    }
  }

  /** When each refusal is given, in the order they are tried; `LastAdmin`, the
    last, is `LastAdminExactlyWhen`. */
  lemma RefusedExactlyWhen(groups: seq<Group>, users: map<int, User>, pk: int, u: Update)
    ensures var outcome := Updating(groups, users, pk, u);
            var asks := u.role.Some? || u.active.Some? || u.email.Some?;
            var known := u.role.Some? ==>
                           u.role.value in {"admin", "manager", "developer", "qa", "support", "devops", "customer"};
            && (outcome == Declined(NothingAsked) <==> !asks)
            && (outcome == Declined(UnknownRole) <==> asks && !known)
            && (outcome == Declined(NoSuchUser) <==> asks && known && pk !in users)
            && (asks && known && pk in users ==>
                  var before := users[pk];
                  var service := before.kind == "service_account" || before.kind == "internal_service_account"
                                 || InGroup(groups, before, "BSYSTEM-Services");
                  var human := exists name :: name in HUMAN_GROUPS && InGroup(groups, before, name);
                  var privileged := InGroup(groups, before, "BSYSTEM-Admins") || u.role == Some("admin");
                  var allowed := !service && human && (privileged ==> u.byAdministrator);
                  && (outcome == Declined(ServiceIdentity) <==> service)
                  && (outcome == Declined(NotHumanAccount) <==> !service && !human)
                  && (outcome == Declined(AdminTarget) <==> !service && human && !allowed)
                  && (outcome == Declined(GroupMissing) <==>
                        allowed && u.role.Some? && forall g :: g in groups ==> g.name != ROLE_GROUPS[u.role.value]))
  {
    hide Demotes, Patched, Regrouped, IsService, IsHuman, InGroup, HasGroup, KeyNamed, ActiveAdmins;
    if Asked(u).None? && pk in users {
      ServiceAndHumanAre(groups, users[pk]);
      InGroupIsHasGroup(groups, users[pk], "BSYSTEM-Admins");
      if u.role.Some? {
        KeyNamedFinds(groups, ROLE_GROUPS[u.role.value]);
      }
    }
  }

  /** What an update that is not refused writes: the fields asked for, and for a
    role its group in place of every other human one, all other groups kept. */
  lemma UpdateWrites(groups: seq<Group>, users: map<int, User>, pk: int, u: Update)
    requires Keyed(groups) && Updating(groups, users, pk, u).Updated?
    ensures var Updated(before, after) := Updating(groups, users, pk, u);
            && pk in users && before == users[pk] && after.kind == before.kind
            && after.active == (if u.active.Some? then u.active.value else before.active)
            && after.email == (if u.email.Some? then u.email.value else before.email)
            && (u.role.None? ==> after.groups == before.groups)
            && (u.role.Some? ==> u.role.value in ROLE_GROUPS && forall name ::
                  InGroup(groups, after, name) <==>
                    if name in HUMAN_GROUPS then name == ROLE_GROUPS[u.role.value] else InGroup(groups, before, name))
  {
    hide Regrouped, KeyNamed, Demotes, Barred, ActiveAdmins, InGroup, IsHumanGroup;
    var Updated(before, after) := Updating(groups, users, pk, u);
    if u.role.Some? {
      var asked := ROLE_GROUPS[u.role.value];
      HumanNames(u.role.value);
      forall name
        ensures InGroup(groups, after, name) <==> if name in HUMAN_GROUPS then name == asked else InGroup(groups, before, name)
      {
        HumanGroupsAre(name);
        InGroupIsHasGroup(groups, before, name);
        InGroupIsHasGroup(groups, after, name);
        RegroupedHas(groups, before, asked, KeyNamed(groups, asked).value, name, u);
      }
    }
  }

  // ------------------------------------------ what is closed to other callers

  /** Only an administrator's update touches an account of the administrators'
    group, or puts one into it. */
  lemma PlansOfOthers(groups: seq<Group>, before: User, u: Update)
    requires Keyed(groups) && !u.byAdministrator && PlanFor(groups, before, u).Write?
    ensures !InGroup(groups, before, "BSYSTEM-Admins")
    ensures !InGroup(groups, PlanFor(groups, before, u).after, "BSYSTEM-Admins")
  {
    var after := PlanFor(groups, before, u).after;
    InGroupIsHasGroup(groups, before, "BSYSTEM-Admins");
    InGroupIsHasGroup(groups, after, "BSYSTEM-Admins");
    hide InGroup, IsService, IsHuman, KeyNamed, Regrouped, Demotes, IsHumanGroup;
    if u.role.Some? {
      var name := ROLE_GROUPS[u.role.value];
      HumanNames(u.role.value);
      RegroupedHas(groups, before, name, KeyNamed(groups, name).value, ADMINS, u);
    }
  }

  /** The administrators' accounts, as they are. */
  ghost predicate SameAdministrators(groups: seq<Group>, before: map<int, User>, after: map<int, User>) {
    && (forall pk :: pk in before && InGroup(groups, before[pk], "BSYSTEM-Admins") ==> pk in after && after[pk] == before[pk])
    && (forall pk :: pk in after && InGroup(groups, after[pk], "BSYSTEM-Admins") ==> pk in before && before[pk] == after[pk])
  }

  /** An update by anybody else leaves every account of the administrators' group
    as it was, and nobody enters it. */
  lemma OthersLeaveAdministratorsAlone(groups: seq<Group>, users: map<int, User>, pk: int, u: Update)
    requires Keyed(groups) && !u.byAdministrator
    ensures var outcome := Updating(groups, users, pk, u);
            outcome.Updated? ==> pk in users && SameAdministrators(groups, users, users[pk := outcome.after])
  {
    hide PlanFor, ActiveAdmins, InGroup;
    if Updating(groups, users, pk, u).Updated? {
      PlansOfOthers(groups, users[pk], u);
    }
  }

  // ------------------------------------------------------------- the directory

  class Directory {
    const groups: seq<Group>
    var users: map<int, User>

    constructor (groups: seq<Group>, users: map<int, User>)
      ensures this.groups == groups && this.users == users
    {
      this.groups, this.users := groups, users;
    }

    method ActiveAdminCount() returns (count: nat)
      ensures count == |ActiveAdmins(groups, users)|
    {
      hide IsActiveAdmin;
      count := 0;
      var left := users.Keys;
      ghost var counted: set<int> := {};
      while left != {}
        invariant left <= users.Keys && counted == ActiveAdmins(groups, users) - left && count == |counted|
      {
        ghost var some := Pick(left);
        var pk :| pk in left;
        left := left - {pk};
        if IsActiveAdmin(groups, users[pk]) {
          count := count + 1;
          counted := counted + {pk};
        }
        assert counted == ActiveAdmins(groups, users) - left;
      }
      assert ActiveAdmins(groups, users) - {} == ActiveAdmins(groups, users);
    }

    /** The keys of a user's groups with the human ones replaced by `target`. */
    method Regroup(current: seq<string>, target: string) returns (keys: seq<string>)
      ensures keys == Regrouped(groups, current, target)
    {
      var human: set<string> := {};
      for i := 0 to |groups|
        invariant human == HumanKeys(groups[..i])
      {
        if IsHumanGroup(groups[i].name) {
          human := human + {groups[i].pk};
        }
      }
      assert groups[..|groups|] == groups;
      var filtered: seq<string> := [];
      for i := 0 to |current|
        invariant filtered == Without(current[..i], human)
      {
        assert current[..i + 1][..i] == current[..i];
        if current[i] !in human {
          filtered := filtered + [current[i]];
        }
      }
      assert current[..|current|] == current;
      keys := UniqueStrings(filtered + [target]);
    }

    method UpdateAccount(pk: int, u: Update) returns (outcome: Outcome)
      modifies this
      ensures outcome == Updating(groups, old(users), pk, u)
      ensures users == if outcome.Updated? then old(users)[pk := outcome.after] else old(users)
    {
      hide Regrouped, KeyNamed, IsService, IsHuman, HasGroup, ActiveAdmins;
      if u.role.None? && u.active.None? && u.email.None? {
        return Declined(NothingAsked);
      }
      if u.role.Some? && u.role.value !in ROLE_GROUPS {
        return Declined(UnknownRole);
      }
      if pk !in users {
        return Declined(NoSuchUser);
      }
      var before := users[pk];
      var barred := Barred(groups, before, u);
      if barred.Some? {
        return Declined(barred.value);
      }
      var keys: Option<seq<string>> := None;
      if u.role.Some? {
        var target := KeyNamed(groups, ROLE_GROUPS[u.role.value]);
        if target.None? {
          return Declined(GroupMissing);
        }
        var regrouped := Regroup(before.groups, target.value);
        keys := Some(regrouped);
      }
      var resultActive := before.active;
      if u.active.Some? {
        resultActive := u.active.value;
      }
      var resultAdmin := HasGroup(groups, before, ADMINS);
      if u.role.Some? {
        resultAdmin := u.role.value == "admin";
      }
      if before.active && HasGroup(groups, before, ADMINS) && (!resultActive || !resultAdmin) {
        var count := ActiveAdminCount();
        if count <= 1 {
          return Declined(LastAdmin);
        }
      }
      outcome := Updated(before, Patched(before, keys, u));
      users := users[pk := outcome.after];
    }
  }
}
