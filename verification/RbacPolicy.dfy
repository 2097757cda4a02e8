/** Roles and role bindings, what they permit, and the laws of that reading. */
module RbacPolicy {
  import opened Common

  type Permission = string
  type SubjectKind = string

  const READ: Permission := "read"
  const WRITE: Permission := "write"
  const USER: SubjectKind := "user"
  const GROUP: SubjectKind := "group"

  datatype Role = Role(name: string, resources: seq<string>, tenants: seq<string>, permissions: seq<Permission>)

  datatype Subject = Subject(name: string, kind: SubjectKind)

  datatype RoleBinding = RoleBinding(name: string, subjects: seq<Subject>, roles: seq<string>)

  datatype Policy = Policy(roles: seq<Role>, bindings: seq<RoleBinding>)

  /** One (resource, tenant, permission) triple. */
  datatype Cell = Cell(resource: string, tenant: string, permission: Permission)

  datatype Query = Query(subject: string, groups: seq<string>, cell: Cell)

  /** Position `i` holds the last definition of the name. */
  predicate IsLastOf(roles: seq<Role>, name: string, i: int) {
    0 <= i < |roles| && roles[i].name == name && forall k :: i < k < |roles| ==> roles[k].name != name
  }

  /** The definition a role name stands for: the last one of that name. */
  function LastRole(roles: seq<Role>, name: string): (r: Option<Role>)
    ensures r.Some? ==> exists i :: IsLastOf(roles, name, i) && roles[i] == r.value
    ensures r.None? ==> forall role :: role in roles ==> role.name != name
  {
    assert roles != [] && roles[|roles| - 1].name == name ==> IsLastOf(roles, name, |roles| - 1);
    assert roles != [] && roles[|roles| - 1].name != name ==>
      forall i :: IsLastOf(roles[..|roles| - 1], name, i) ==> IsLastOf(roles, name, i);
    if roles == [] then None
    else if roles[|roles| - 1].name == name then Some(roles[|roles| - 1])
    else LastRole(roles[..|roles| - 1], name)
  }

  /** The last position of a name determines what the name stands for. */
  lemma {:induction false} LastIsUnique(roles: seq<Role>, name: string, i: int)
    requires IsLastOf(roles, name, i)
    ensures LastRole(roles, name) == Some(roles[i])
  {
    if i < |roles| - 1 {
      assert roles[|roles| - 1].name != name;
      LastIsUnique(roles[..|roles| - 1], name, i);
    }
  }

  predicate Covers(role: Role, c: Cell) {
    && c.resource in role.resources && c.tenant in role.tenants && c.permission in role.permissions
    && (c.permission == READ || c.permission == WRITE)
  }

  /** The binding names a role that covers the cell. */
  predicate Reaches(roles: seq<Role>, rb: RoleBinding, c: Cell) {
    exists name :: name in rb.roles && LastRole(roles, name).Some? && Covers(LastRole(roles, name).value, c)
  }

  /** The binding lists the subject as a user, or one of its groups as a group. */
  predicate Names(rb: RoleBinding, subject: string, groups: seq<string>) {
    || Subject(subject, USER) in rb.subjects
    || exists g :: g in groups && Subject(g, GROUP) in rb.subjects
  }

  /** Some binding both reaches the cell and names the subject. */
  predicate Permits(p: Policy, q: Query) {
    exists rb :: rb in p.bindings && Reaches(p.roles, rb, q.cell) && Names(rb, q.subject, q.groups)
  }

  /** The same for one listed subject, as an index stores it. */
  predicate Grants(p: Policy, c: Cell, s: Subject) {
    exists rb :: rb in p.bindings && s in rb.subjects && Reaches(p.roles, rb, c)
  }

  /** Asking for the user and then for each group is asking whether one binding fits. */
  lemma PermitsBySubject(p: Policy, q: Query)
    ensures Permits(p, q) <==>
      || Grants(p, q.cell, Subject(q.subject, USER))
      || exists g :: g in q.groups && Grants(p, q.cell, Subject(g, GROUP))
  {
    if Permits(p, q) {
      var rb :| rb in p.bindings && Reaches(p.roles, rb, q.cell) && Names(rb, q.subject, q.groups);
      if Subject(q.subject, USER) in rb.subjects {
        assert Grants(p, q.cell, Subject(q.subject, USER));
      } else {
        var g :| g in q.groups && Subject(g, GROUP) in rb.subjects;
        assert Grants(p, q.cell, Subject(g, GROUP));
      }
    }
  }

  /**
   A permission, spelled out: it is read or write, and some binding lists the name of a role whose last
   definition has the resource, the tenant and the permission, and lists the user or one of the groups.
   */
  lemma PermitsSpelledOut(p: Policy, q: Query)
    ensures Permits(p, q) <==>
      && (q.cell.permission == "read" || q.cell.permission == "write")
      && exists b, n, i ::
           && 0 <= b < |p.bindings| && 0 <= n < |p.bindings[b].roles| && IsLastOf(p.roles, p.bindings[b].roles[n], i)
           && q.cell.resource in p.roles[i].resources
           && q.cell.tenant in p.roles[i].tenants
           && q.cell.permission in p.roles[i].permissions
           && (|| Subject(q.subject, "user") in p.bindings[b].subjects
               || exists g :: g in q.groups && Subject(g, "group") in p.bindings[b].subjects)
  {
    if Permits(p, q) {
      var rb :| rb in p.bindings && Reaches(p.roles, rb, q.cell) && Names(rb, q.subject, q.groups);
      var name :| name in rb.roles && LastRole(p.roles, name).Some? && Covers(LastRole(p.roles, name).value, q.cell);
      var i :| IsLastOf(p.roles, name, i) && p.roles[i] == LastRole(p.roles, name).value;
      var b :| 0 <= b < |p.bindings| && p.bindings[b] == rb;
      var n :| 0 <= n < |rb.roles| && rb.roles[n] == name;
      assert IsLastOf(p.roles, p.bindings[b].roles[n], i);
    }
    forall b, n, i
      | 0 <= b < |p.bindings| && 0 <= n < |p.bindings[b].roles| && IsLastOf(p.roles, p.bindings[b].roles[n], i)
        && Covers(p.roles[i], q.cell) && Names(p.bindings[b], q.subject, q.groups)
      ensures Permits(p, q)
    {
      var rb := p.bindings[b];
      LastIsUnique(p.roles, rb.roles[n], i);
      assert Reaches(p.roles, rb, q.cell);
    }
  }

  // ----- Laws -----

  /** Binding lists combine by disjunction. */
  lemma BindingsCombine(roles: seq<Role>, bs: seq<RoleBinding>, cs: seq<RoleBinding>, q: Query)
    ensures Permits(Policy(roles, bs + cs), q) <==> Permits(Policy(roles, bs), q) || Permits(Policy(roles, cs), q)
  {
    assert forall rb :: rb in bs + cs <==> rb in bs || rb in cs;
  }

  /**
   More bindings and more groups never take a permission away; in particular the order of bindings and
   groups and repetitions of them do not matter.
   */
  lemma PermitsIsMonotone(roles: seq<Role>, bs: seq<RoleBinding>, cs: seq<RoleBinding>, q: Query, groups: seq<string>)
    requires forall rb :: rb in bs ==> rb in cs
    requires forall g :: g in q.groups ==> g in groups
    ensures Permits(Policy(roles, bs), q) ==> Permits(Policy(roles, cs), q.(groups := groups))
  {
    if Permits(Policy(roles, bs), q) {
      var rb :| rb in bs && Reaches(roles, rb, q.cell) && Names(rb, q.subject, q.groups);
      assert Names(rb, q.subject, groups);
    }
  }

  /** Permuting or repeating bindings and groups changes no decision. */
  lemma OrderDoesNotMatter(roles: seq<Role>, bs: seq<RoleBinding>, cs: seq<RoleBinding>, q: Query, groups: seq<string>)
    requires forall rb :: rb in bs <==> rb in cs
    requires forall g :: g in q.groups <==> g in groups
    ensures Permits(Policy(roles, bs), q) <==> Permits(Policy(roles, cs), q.(groups := groups))
  {
    PermitsIsMonotone(roles, bs, cs, q, groups);
    PermitsIsMonotone(roles, cs, bs, q.(groups := groups), q.groups);
    assert q.(groups := groups).(groups := q.groups) == q;
  }

  lemma {:induction false} LastRoleOfConcat(front: seq<Role>, back: seq<Role>, name: string)
    ensures LastRole(front + back, name)
         == if LastRole(back, name).Some? then LastRole(back, name) else LastRole(front, name)
  {
    if back == [] {
      assert front + back == front;
    } else {
      var back' := back[..|back| - 1];
      assert (front + back)[..|front + back| - 1] == front + back';
      LastRoleOfConcat(front, back', name);
    }
  }

  /** A role followed by another of the same name, however far behind, has no effect. */
  lemma ShadowedRoleIsInert(front: seq<Role>, role: Role, back: seq<Role>, bindings: seq<RoleBinding>, q: Query)
    requires exists later :: later in back && later.name == role.name
    ensures Permits(Policy(front + [role] + back, bindings), q) <==> Permits(Policy(front + back, bindings), q)
  {
    forall name ensures LastRole(front + [role] + back, name) == LastRole(front + back, name) {
      LastRoleOfConcat(front + [role], back, name);
      LastRoleOfConcat(front, back, name);
      LastRoleOfConcat(front, [role], name);
      assert [role][..0] == [];
      assert LastRole([role], name).Some? <==> role.name == name;
    }
    assert forall rb :: Reaches(front + [role] + back, rb, q.cell) <==> Reaches(front + back, rb, q.cell);
  }
}
