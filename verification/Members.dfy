/** Projects and their members. `writes` is how many storage writes of a call succeed before one fails. */
module Members {
  import opened Domain

  /** Member roles by project and user; `staffed` are the projects whose `Create` succeeded. */
  datatype Store = Store(projects: set<string>, members: map<(string, string), Role>, staffed: set<string>)

  const EMPTY := Store({}, map[], {})

  function Admins(members: map<(string, string), Role>, project: string): set<(string, string)> {
    set k | k in members && k.0 == project && members[k].Admin?
  }

  /** Members belong to stored projects, and every project created successfully and not deleted since has an admin. */
  ghost predicate Inv(s: Store) {
    && (forall k :: k in s.members ==> k.0 in s.projects)
    && s.staffed <= s.projects && forall p :: p in s.staffed ==> Admins(s.members, p) != {}
  }

  datatype Op =
    | CreateProject(project: string, user: string)
    | DeleteProject(project: string)
    | AddMember(project: string, user: string, role: Role)
    | UpdateRole(project: string, user: string, role: Role)
    | RemoveMember(project: string, user: string)

  /** The member is the project's only admin. */
  predicate LastAdminIs(s: Store, project: string, user: string) {
    (project, user) in Admins(s.members, project) && |Admins(s.members, project)| == 1
  }

  /** What one completed call may leave behind. */
  ghost predicate Next(s: Store, op: Op, t: Store) {
    t == s ||
    match op
    case CreateProject(p, u) =>
      && p !in s.projects && (p, u) !in s.members
      && (t == s.(projects := s.projects + {p}) ||
          t == s.(projects := s.projects + {p}, members := s.members[(p, u) := Admin], staffed := s.staffed + {p}))
    case DeleteProject(p) =>
      t == Store(s.projects - {p}, map k | k in s.members && k.0 != p :: s.members[k], s.staffed - {p})
    case AddMember(p, u, r) => p in s.projects && (p, u) !in s.members && t == s.(members := s.members[(p, u) := r])
    case UpdateRole(p, u, r) =>
      (p, u) in s.members && (r.Admin? || !LastAdminIs(s, p, u)) && t == s.(members := s.members[(p, u) := r])
    case RemoveMember(p, u) =>
      (p, u) in s.members && !LastAdminIs(s, p, u) && t == s.(members := s.members - {(p, u)})
  }

  /** Taking one of at least two admins, or somebody who is none, leaves an admin. */
  lemma AdminRemains(before: set<(string, string)>, after: set<(string, string)>, k: (string, string))
    requires before != {} && !(k in before && |before| == 1) && before - {k} <= after
    ensures after != {}
  {
    assert |before - {k}| == if k in before then |before| - 1 else |before| by {
      if k !in before { assert before - {k} == before; }
    }
    var x :| x in before - {k};
    assert x in after;
  }

  lemma SameAdmins(s: Store, t: Store, p: string)
    requires Admins(s.members, p) != {}
    requires forall u :: (p, u) in s.members ==> (p, u) in t.members && t.members[(p, u)] == s.members[(p, u)]
    ensures Admins(t.members, p) != {}
  {
    var k :| k in Admins(s.members, p);
    assert k == (p, k.1);
    assert k in Admins(t.members, p);
  }

  lemma NextKeepsInv(s: Store, op: Op, t: Store)
    requires Inv(s) && Next(s, op, t)
    ensures Inv(t)
  {
    if t != s {
      forall p | p in t.staffed ensures Admins(t.members, p) != {} {
        match op
        case CreateProject(q, u) => if p == q { assert (q, u) in Admins(t.members, q); } else { SameAdmins(s, t, p); }
        case DeleteProject(q) => assert p != q; SameAdmins(s, t, p);
        case AddMember(q, u, r) => assert Admins(s.members, p) <= Admins(t.members, p);
        case UpdateRole(q, u, r) =>
          if p != q {
            SameAdmins(s, t, p);
          } else if r.Admin? {
            assert (q, u) in Admins(t.members, q);
          } else {
            AdminRemains(Admins(s.members, p), Admins(t.members, p), (q, u));
          }
        case RemoveMember(q, u) =>
          if p != q { SameAdmins(s, t, p); } else { AdminRemains(Admins(s.members, p), Admins(t.members, p), (q, u)); }
      }
    }
  }

  /** No sequence of completed calls takes the last admin from a project whose creation succeeded. */
  lemma {:induction false} RunKeepsAdmins(states: seq<Store>, ops: seq<Op>, i: nat)
    requires |states| == |ops| + 1 && states[0] == EMPTY && i < |states|
    requires forall k :: 0 <= k < |ops| ==> Next(states[k], ops[k], states[k + 1])
    ensures Inv(states[i])
  {
    if i > 0 {
      RunKeepsAdmins(states, ops, i - 1);
      NextKeepsInv(states[i - 1], ops[i - 1], states[i]);
    }
  }

  class Services {
    var projects: set<string>
    var members: map<(string, string), Role>
    ghost var staffed: set<string>

    ghost function View(): Store
      reads this
    {
      Store(projects, members, staffed)
    }

    constructor ()
      ensures View() == EMPTY
    {
      projects, members, staffed := {}, map[], {};
    }

    /** `ProjectService.Create`, for a project identified by its slug: the creator becomes admin by a second write. */
    method Create(role: Role, user: string, name: string, slug: string, writes: nat) returns (res: Result<()>)
      requires Inv(View())
      modifies this
      ensures Next(old(View()), CreateProject(slug, user), View())
      ensures res.Ok? <==>
              role.Level() >= Editor.Level() && name != "" && IsSlug(slug) && slug !in old(projects) && writes >= 2
      ensures res == Err(Conflict) <==>
                role.Level() >= Editor.Level() && name != "" && IsSlug(slug) && writes > 0 && slug in old(projects)
      ensures res == Err(Invalid("name")) <==> role.Level() >= Editor.Level() && name == ""
      ensures res == Err(Invalid("slug")) <==> role.Level() >= Editor.Level() && name != "" && !IsSlug(slug)
      ensures res.Ok? ==> slug in staffed && (slug, user) in Admins(members, slug)
    {
      if role.Level() < Editor.Level() { return Err(Forbidden); }
      if name == "" { return Err(Invalid("name")); }
      if !IsSlug(slug) { return Err(Invalid("slug")); }
      if writes == 0 { return Err(Storage); }
      if slug in projects { return Err(Conflict); }
      assert (slug, user) !in members;
      projects := projects + {slug};
      if writes == 1 { return Err(Storage); }
      members := members[(slug, user) := Admin];
      staffed := staffed + {slug};
      res := Ok(());
    }

    /** `AddMember`. */
    method Add(caller: Role, project: string, user: string, role: Role, writes: nat) returns (res: Result<()>)
      modifies this
      ensures Next(old(View()), AddMember(project, user, role), View())
      ensures res.Ok? <==> caller.Admin? && project in old(projects) && writes > 0 && (project, user) !in old(members)
      ensures View() == if res.Ok? then old(View()).(members := old(members)[(project, user) := role]) else old(View())
    {
      if caller.Level() < Admin.Level() || role.Level() > caller.Level() { return Err(Forbidden); }
      if project !in projects { return Err(NotFound); }
      if writes == 0 { return Err(Storage); }
      if (project, user) in members { return Err(Conflict); }
      members := members[(project, user) := role];
      res := Ok(());
    }

    /** The counting loop both guards share. */
    method CountAdmins(project: string, user: string) returns (found: bool, targetIsAdmin: bool, adminCount: int)
      ensures found <==> (project, user) in members
      ensures targetIsAdmin <==> (project, user) in Admins(members, project)
      ensures adminCount == |Admins(members, project)|
    {
      found, targetIsAdmin, adminCount := false, false, 0;
      var todo := set k | k in members && k.0 == project;
      ghost var seen, counted: set<(string, string)> := {}, {};
      while todo != {}
        invariant todo !! seen
        invariant forall k :: k in todo || k in seen <==> k in members && k.0 == project
        invariant forall k :: k in counted <==> k in seen && members[k].Admin?
        invariant adminCount == |counted|
        invariant found <==> (project, user) in seen
        invariant targetIsAdmin <==> (project, user) in counted
        decreases todo
      {
        var k :| k in todo;
        if members[k].Admin? {
          adminCount := adminCount + 1;
          counted := counted + {k};
        }
        if k.1 == user {
          found := true;
          targetIsAdmin := members[k].Admin?;
        }
        todo, seen := todo - {k}, seen + {k};
      }
      assert counted == Admins(members, project);
    }

    /** `UpdateRole`: demoting the last admin is refused. */
    method SetRole(caller: Role, project: string, user: string, role: Role, writes: nat) returns (res: Result<()>)
      modifies this
      ensures Next(old(View()), UpdateRole(project, user, role), View())
      ensures res == Err(LastAdmin) <==>
                caller.Admin? && project in old(projects) && !role.Admin? && LastAdminIs(old(View()), project, user)
      ensures res == Err(NotFound) <==>
              caller.Admin? && (project !in old(projects) ||
                                ((project, user) !in old(members) && writes > 0))
      ensures res.Ok? <==>
              caller.Admin? && project in old(projects) && (project, user) in old(members) && writes > 0 &&
              (role.Admin? || !LastAdminIs(old(View()), project, user))
      ensures View() == if res.Ok? then old(View()).(members := old(members)[(project, user) := role]) else old(View())
    {
      if caller.Level() < Admin.Level() || role.Level() > caller.Level() { return Err(Forbidden); }
      if project !in projects { return Err(NotFound); }
      if !role.Admin? {
        var _, targetIsAdmin, adminCount := CountAdmins(project, user);
        if targetIsAdmin && adminCount == 1 { return Err(LastAdmin); }
      }
      if writes == 0 { return Err(Storage); }
      if (project, user) !in members { return Err(NotFound); }
      members := members[(project, user) := role];
      res := Ok(());
    }

    /** `RemoveMember`: removing the last admin is refused. */
    method Remove(caller: Role, project: string, user: string, writes: nat) returns (res: Result<()>)
      modifies this
      ensures Next(old(View()), RemoveMember(project, user), View())
      ensures res == Err(LastAdmin) <==>
                caller.Admin? && project in old(projects) && LastAdminIs(old(View()), project, user)
      ensures res == Err(NotFound) <==> caller.Admin? && (project !in old(projects) || (project, user) !in old(members))
      ensures res.Ok? <==>
              caller.Admin? && project in old(projects) && (project, user) in old(members) && writes > 0 &&
              !LastAdminIs(old(View()), project, user)
      ensures View() == if res.Ok? then old(View()).(members := old(members) - {(project, user)}) else old(View())
    {
      if caller.Level() < Admin.Level() { return Err(Forbidden); }
      if project !in projects { return Err(NotFound); }
      var found, targetIsAdmin, adminCount := CountAdmins(project, user);
      if !found { return Err(NotFound); }
      if targetIsAdmin && adminCount == 1 { return Err(LastAdmin); }
      if writes == 0 { return Err(Storage); }
      members := members - {(project, user)};
      res := Ok(());
    }
  }
}
