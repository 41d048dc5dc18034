/** Every interleaving of account updates and creations by any number of
  processes against one directory.

  A process takes the advisory lock of internal/platformdb/lock.go, then reads
  the user, reads the groups, counts administrators if it must, writes, and lets
  the lock go; it may fail or die after any of these, which also lets it go.
  Nothing else writes to the directory, and a write it asked for is not applied
  after the lock is gone. */
module AdministratorRuns {
  import opened Wrappers
  import opened Administrators

  datatype Change = Change(pk: int, update: Update)

  datatype Process =
    | Outside
    | Updating(change: Change)
    | HasRead(change: Change, before: User)
    | Planned(change: Change, before: User, after: User, demotes: bool)
    | Counted(change: Change, before: User, after: User)
    | Creating(role: string)
    | Created(pk: int)
    | Leaving

  datatype World = World(users: map<int, User>, lock: Option<nat>, procs: map<nat, Process>)

  datatype Step =
    | AcquireToUpdate(proc: nat, change: Change)
    | AcquireToCreate(proc: nat, role: string, byAdministrator: bool)
    | ReadUser(proc: nat)
    | ReadGroups(proc: nat)
    | CountAdmins(proc: nat)
    | WriteUser(proc: nat)
    | CreateInactive(proc: nat, pk: int, email: string)
    | Activate(proc: nat)
    | LetGo(proc: nat)

  function Start(users: map<int, User>, procs: set<nat>): World {
    World(users, None, map p | p in procs :: Outside)
  }

  predicate CanStep(w: World, step: Step) {
    step.proc in w.procs &&
    var x := w.procs[step.proc];
    match step
    case AcquireToUpdate(_, change) => x.Outside? && w.lock.None? && Asked(change.update).None?
    case AcquireToCreate(_, role, byAdministrator) =>
      x.Outside? && w.lock.None? && role in ROLE_GROUPS && (role == "admin" ==> byAdministrator)
    case ReadUser(_) => x.Updating? && x.change.pk in w.users
    case ReadGroups(_) => x.HasRead?
    case CountAdmins(_) => x.Planned? && x.demotes
    case WriteUser(_) => (x.Planned? && !x.demotes) || x.Counted?
    case CreateInactive(_, pk, _) => x.Creating? && x.role in ROLE_GROUPS && pk !in w.users
    case Activate(_) => x.Created? && x.pk in w.users
    case LetGo(_) => !x.Outside?
  }

  function NewUser(groupKey: string, email: string): User {
    User(false, "internal", [groupKey], email)
  }

  function Next(groups: seq<Group>, w: World, step: Step): World
    requires CanStep(w, step)
  {
    var p, x := step.proc, w.procs[step.proc];
    match step
    case AcquireToUpdate(_, change) => w.(lock := Some(p), procs := w.procs[p := Updating(change)])
    case AcquireToCreate(_, role, _) => w.(lock := Some(p), procs := w.procs[p := Creating(role)])
    case ReadUser(_) => w.(procs := w.procs[p := HasRead(x.change, w.users[x.change.pk])])
    case ReadGroups(_) =>
      var plan := PlanFor(groups, x.before, x.change.update);
      w.(procs := w.procs[p := if plan.Refused? then Leaving else Planned(x.change, x.before, plan.after, plan.demotes)])
    case CountAdmins(_) =>
      w.(procs := w.procs[p := if |ActiveAdmins(groups, w.users)| <= 1 then Leaving else Counted(x.change, x.before, x.after)])
    case WriteUser(_) => w.(users := w.users[x.change.pk := x.after], procs := w.procs[p := Leaving])
    case CreateInactive(_, pk, email) =>
      var key := KeyNamed(groups, ROLE_GROUPS[x.role]);
      if key.None? then w.(procs := w.procs[p := Leaving])
      else w.(users := w.users[pk := NewUser(key.value, email)], procs := w.procs[p := Created(pk)])
    case Activate(_) => w.(users := w.users[x.pk := w.users[x.pk].(active := true)], procs := w.procs[p := Leaving])
    case LetGo(_) => w.(lock := None, procs := w.procs[p := Outside])
  }

  function After(groups: seq<Group>, w: World, steps: seq<Step>): Option<World>
    decreases |steps|
  {
    if steps == [] then Some(w)
    else if CanStep(w, steps[0]) then After(groups, Next(groups, w, steps[0]), steps[1..])
    else None
  }

  /** Only the lock's holder is inside. */
  ghost predicate Exclusive(w: World) {
    forall p :: p in w.procs && !w.procs[p].Outside? ==> w.lock == Some(p)
  }

  /** What a process inside knows is still true of the directory. */
  ghost predicate Informed(groups: seq<Group>, w: World, x: Process) {
    match x
    case Updating(change) => Asked(change.update).None?
    case HasRead(change, before) => Asked(change.update).None? && change.pk in w.users && w.users[change.pk] == before
    case Planned(change, before, after, demotes) =>
      Asked(change.update).None? && change.pk in w.users && w.users[change.pk] == before &&
      PlanFor(groups, before, change.update) == Write(after, demotes)
    case Counted(change, before, after) =>
      Asked(change.update).None? && change.pk in w.users && w.users[change.pk] == before &&
      PlanFor(groups, before, change.update) == Write(after, true) && |ActiveAdmins(groups, w.users)| > 1
    case Created(pk) => pk in w.users && !w.users[pk].active
    case _ => true
  }

  ghost predicate Knowing(groups: seq<Group>, w: World) {
    Exclusive(w) && forall p :: p in w.procs ==> Informed(groups, w, w.procs[p])
  }

  ghost predicate Inv(groups: seq<Group>, w: World) {
    Knowing(groups, w) && ActiveAdmins(groups, w.users) != {}
  }

  lemma WriteKeepsAnAdmin(groups: seq<Group>, w: World, p: nat)
    requires Keyed(groups) && Inv(groups, w) && CanStep(w, WriteUser(p))
    ensures ActiveAdmins(groups, Next(groups, w, WriteUser(p)).users) != {}
  {
    hide IsActiveAdmin, PlanFor, Exclusive, ActiveAdmins;
    var x := w.procs[p];
    assert Informed(groups, w, x);
    var pk, admins := x.change.pk, ActiveAdmins(groups, w.users);
    OneUserChanged(groups, w.users, pk, x.after);
    if x.Counted? {
      assert pk in admins ==> |admins - {pk}| == |admins| - 1;
    } else {
      DemotesExactlyWhen(groups, x.before, x.change.update);
      if IsActiveAdmin(groups, x.after) {
        assert pk in admins + {pk};
      } else {
        assert admins - {pk} == admins;
      }
    }
  }

  lemma NewUsersOnlyAdd(groups: seq<Group>, users: map<int, User>, pk: int, u: User)
    requires ActiveAdmins(groups, users) != {} && (pk in users ==> !users[pk].active)
    ensures ActiveAdmins(groups, users[pk := u]) != {}
  {
  }

  lemma StepKeepsKnowing(groups: seq<Group>, w: World, step: Step)
    requires Knowing(groups, w) && CanStep(w, step)
    ensures Knowing(groups, Next(groups, w, step))
  {
    hide IsActiveAdmin, PlanFor, ActiveAdmins, KeyNamed;
    var p, x := step.proc, w.procs[step.proc];
    assert Informed(groups, w, x);
    assert forall q :: q in w.procs && q != p && !x.Outside? ==> w.procs[q].Outside?;
  }

  lemma StepKeepsInv(groups: seq<Group>, w: World, step: Step)
    requires Keyed(groups) && Inv(groups, w) && CanStep(w, step)
    ensures Inv(groups, Next(groups, w, step))
  {
    StepKeepsKnowing(groups, w, step);
    hide IsActiveAdmin, PlanFor, ActiveAdmins, KeyNamed, Exclusive;
    var p, x := step.proc, w.procs[step.proc];
    assert Informed(groups, w, x);
    match step
    case WriteUser(_) => WriteKeepsAnAdmin(groups, w, p);
    case CreateInactive(_, pk, email) =>
      var key := KeyNamed(groups, ROLE_GROUPS[x.role]);
      if key.Some? {
        NewUsersOnlyAdd(groups, w.users, pk, NewUser(key.value, email));
      }
    case Activate(_) => NewUsersOnlyAdd(groups, w.users, x.pk, w.users[x.pk].(active := true));
    case _ =>
  }

  lemma {:induction false} RunKeepsInv(groups: seq<Group>, w: World, steps: seq<Step>)
    requires Keyed(groups) && Inv(groups, w)
    ensures After(groups, w, steps).Some? ==> Inv(groups, After(groups, w, steps).value)
    decreases |steps|
  {
    hide Inv, CanStep, Next;
    if steps != [] && CanStep(w, steps[0]) {
      StepKeepsInv(groups, w, steps[0]);
      RunKeepsInv(groups, Next(groups, w, steps[0]), steps[1..]);
    }
  }

  /** A directory with an active human administrator has one after any
    interleaving, whoever fails or dies where. */
  lemma AnAdministratorRemains(groups: seq<Group>, users: map<int, User>, procs: set<nat>, steps: seq<Step>, w: World)
    requires Keyed(groups) && ActiveAdmins(groups, users) != {}
    requires After(groups, Start(users, procs), steps) == Some(w)
    ensures exists pk :: pk in w.users && IsActiveAdmin(groups, w.users[pk])
    ensures forall p, q :: p in w.procs && q in w.procs && !w.procs[p].Outside? && !w.procs[q].Outside? ==> p == q
  {
    RunKeepsInv(groups, Start(users, procs), steps);
    var pk := Pick(ActiveAdmins(groups, w.users));
    assert pk in w.users && IsActiveAdmin(groups, w.users[pk]);
  }

  /** What a process writes is what the update alone would have written to the
    directory as it is at that moment. */
  lemma WritesAsIfAlone(groups: seq<Group>, w: World, p: nat)
    requires Keyed(groups) && Inv(groups, w) && CanStep(w, WriteUser(p))
    ensures var x := w.procs[p];
            Administrators.Updating(groups, w.users, x.change.pk, x.change.update) == Updated(w.users[x.change.pk], x.after)
  {
  }

  // --------------------------------------------- runs without an administrator

  /** Somebody other than an administrator asked for this. */
  predicate AskedByOthers(step: Step) {
    match step
    case AcquireToUpdate(_, change) => !change.update.byAdministrator
    case AcquireToCreate(_, _, byAdministrator) => !byAdministrator
    case _ => true
  }

  /** What processes are doing for callers who are not administrators. */
  ghost predicate WorkOfOthers(groups: seq<Group>, w: World, x: Process) {
    match x
    case Updating(change) => !change.update.byAdministrator
    case HasRead(change, _) => !change.update.byAdministrator
    case Planned(change, _, _, _) => !change.update.byAdministrator
    case Counted(change, _, _) => !change.update.byAdministrator
    case Creating(role) => role != "admin"
    case Created(pk) => pk in w.users && !InGroup(groups, w.users[pk], "BSYSTEM-Admins")
    case _ => true
  }

  ghost predicate Untouched(groups: seq<Group>, users: map<int, User>, w: World) {
    && Knowing(groups, w)
    && (forall p :: p in w.procs ==> WorkOfOthers(groups, w, w.procs[p]))
    && SameAdministrators(groups, users, w.users)
  }

  lemma NewUserIsNoAdministrator(groups: seq<Group>, role: string, email: string)
    requires Keyed(groups) && role in ROLE_GROUPS && role != "admin" && KeyNamed(groups, ROLE_GROUPS[role]).Some?
    ensures !InGroup(groups, NewUser(KeyNamed(groups, ROLE_GROUPS[role]).value, email), "BSYSTEM-Admins")
  {
    HumanNames(role);
    var i := SomeKeyNamed(groups, ROLE_GROUPS[role], KeyNamed(groups, ROLE_GROUPS[role]).value);
  }

  lemma WriteOfOthers(groups: seq<Group>, w: World, p: nat)
    requires Keyed(groups) && Knowing(groups, w) && CanStep(w, WriteUser(p)) && WorkOfOthers(groups, w, w.procs[p])
    ensures var x := w.procs[p];
            && x.change.pk in w.users && !InGroup(groups, w.users[x.change.pk], "BSYSTEM-Admins")
            && !InGroup(groups, x.after, "BSYSTEM-Admins")
  {
    hide InGroup, PlanFor;
    var x := w.procs[p];
    assert Informed(groups, w, x);
    PlansOfOthers(groups, x.before, x.change.update);
  }

  lemma StepKeepsAdministrators(groups: seq<Group>, users: map<int, User>, w: World, step: Step)
    requires Keyed(groups) && Untouched(groups, users, w) && CanStep(w, step)
    ensures SameAdministrators(groups, users, Next(groups, w, step).users)
  {
    hide InGroup, PlanFor, KeyNamed, Informed, Exclusive;
    var p, x := step.proc, w.procs[step.proc];
    assert WorkOfOthers(groups, w, x);
    match step
    case WriteUser(_) => WriteOfOthers(groups, w, p);
    case CreateInactive(_, pk, email) =>
      if KeyNamed(groups, ROLE_GROUPS[x.role]).Some? {
        NewUserIsNoAdministrator(groups, x.role, email);
      }
    case Activate(_) => ActivatedStays(groups, w.users[x.pk]);
    case _ =>
  }

  lemma ActivatedStays(groups: seq<Group>, u: User)
    ensures InGroup(groups, u, "BSYSTEM-Admins") <==> InGroup(groups, u.(active := true), "BSYSTEM-Admins")
  {
  }

  lemma StepKeepsWork(groups: seq<Group>, users: map<int, User>, w: World, step: Step)
    requires Keyed(groups) && Untouched(groups, users, w) && CanStep(w, step) && AskedByOthers(step)
    ensures forall p :: p in w.procs ==> WorkOfOthers(groups, Next(groups, w, step), Next(groups, w, step).procs[p])
  {
    hide InGroup, PlanFor, KeyNamed, Informed;
    var p, x := step.proc, w.procs[step.proc];
    assert forall q :: q in w.procs && q != p && !x.Outside? ==> w.procs[q].Outside?;
    assert WorkOfOthers(groups, w, x);
    if step.CreateInactive? && KeyNamed(groups, ROLE_GROUPS[x.role]).Some? {
      NewUserIsNoAdministrator(groups, x.role, step.email);
    }
  }

  lemma StepLeavesAdministratorsAlone(groups: seq<Group>, users: map<int, User>, w: World, step: Step)
    requires Keyed(groups) && Untouched(groups, users, w) && CanStep(w, step) && AskedByOthers(step)
    ensures Untouched(groups, users, Next(groups, w, step))
  {
    StepKeepsKnowing(groups, w, step);
    StepKeepsAdministrators(groups, users, w, step);
    StepKeepsWork(groups, users, w, step);
    hide WorkOfOthers, Knowing, SameAdministrators;
  }

  lemma {:induction false} RunLeavesAdministratorsAlone(groups: seq<Group>, users: map<int, User>, w: World, steps: seq<Step>)
    requires Keyed(groups) && Untouched(groups, users, w)
    requires forall i :: 0 <= i < |steps| ==> AskedByOthers(steps[i])
    ensures After(groups, w, steps).Some? ==> Untouched(groups, users, After(groups, w, steps).value)
    decreases |steps|
  {
    hide Untouched, CanStep, Next;
    if steps != [] && CanStep(w, steps[0]) {
      StepLeavesAdministratorsAlone(groups, users, w, steps[0]);
      RunLeavesAdministratorsAlone(groups, users, Next(groups, w, steps[0]), steps[1..]);
    }
  }

  /** Over any run of updates and creations that no administrator asked for, the
    members of the administrators' group, and their accounts, stay as they were. */
  lemma OthersNeverTouchAdministrators(groups: seq<Group>, users: map<int, User>, procs: set<nat>, steps: seq<Step>, w: World)
    requires Keyed(groups) && After(groups, Start(users, procs), steps) == Some(w)
    requires forall i :: 0 <= i < |steps| ==>
               && (steps[i].AcquireToUpdate? ==> !steps[i].change.update.byAdministrator)
               && (steps[i].AcquireToCreate? ==> !steps[i].byAdministrator)
    ensures forall pk :: pk in users && InGroup(groups, users[pk], "BSYSTEM-Admins") ==>
              pk in w.users && w.users[pk] == users[pk]
    ensures forall pk :: pk in w.users && InGroup(groups, w.users[pk], "BSYSTEM-Admins") ==>
              pk in users && users[pk] == w.users[pk]
  {
    RunLeavesAdministratorsAlone(groups, users, Start(users, procs), steps);
  }
}
