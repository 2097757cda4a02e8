/**
 The compiled authorizer: a map of maps of sets, all of them heap objects that the builder updates in
 place. Each object carries the place it belongs to, so that objects in different places differ.
 */
module RbacIndex {
  import opened Common
  import opened RbacPolicy

  class SubjectSet {
    ghost const home: Cell
    var members: set<Subject>

    constructor (ghost home: Cell)
      ensures this.home == home && members == {}
    {
      this.home := home;
      members := {};
    }
  }

  /** The read and write sets of one tenant. */
  datatype Tenant = Tenant(read: SubjectSet, write: SubjectSet)

  class Tenants {
    ghost const home: string
    var entries: map<string, Tenant>

    constructor (ghost home: string)
      ensures this.home == home && entries == map[]
    {
      this.home := home;
      entries := map[];
    }
  }

  /** The name table holds the last definition of each name. */
  ghost predicate Defines(defined: map<string, Role>, roles: seq<Role>) {
    forall name :: (if name in defined then Some(defined[name]) else None) == LastRole(roles, name)
  }

  lemma ReachesOneMore(roles: seq<Role>, rb: RoleBinding, i: nat)
    requires i < |rb.roles|
    ensures forall c :: Reaches(roles, rb.(roles := rb.roles[..i + 1]), c) <==>
      || Reaches(roles, rb.(roles := rb.roles[..i]), c)
      || (LastRole(roles, rb.roles[i]).Some? && Covers(LastRole(roles, rb.roles[i]).value, c))
  {
    assert rb.roles[..i + 1] == rb.roles[..i] + [rb.roles[i]];
    assert forall name :: name in rb.roles[..i + 1] <==> name in rb.roles[..i] || name == rb.roles[i];
  }

  class Resources {
    var entries: map<string, Tenants>
    ghost var Repr: set<object>

    ghost predicate TenantValid(r: string, t: string, tenant: Tenant)
      reads this
    {
      && tenant.read in Repr && tenant.read.home == Cell(r, t, READ)
      && tenant.write in Repr && tenant.write.home == Cell(r, t, WRITE)
    }

    ghost predicate Valid()
      reads this, Repr
      ensures Valid() ==> this in Repr
    {
      && this in Repr
      && (forall r :: r in entries ==> entries[r] in Repr && entries[r].home == r)
      && (forall r, t :: r in entries && t in entries[r].entries ==> TenantValid(r, t, entries[r].entries[t]))
    }

    ghost predicate Has(r: string, t: string)
      requires Valid()
      reads this, Repr
    {
      r in entries && t in entries[r].entries
    }

    /** The index lists `s` in the cell `c`. */
    ghost predicate Holds(c: Cell, s: Subject)
      requires Valid()
      reads this, Repr
    {
      && Has(c.resource, c.tenant)
      && var tenant := entries[c.resource].entries[c.tenant];
         || (c.permission == READ && s in tenant.read.members)
         || (c.permission == WRITE && s in tenant.write.members)
    }

    /** The index stores exactly what the policy grants. */
    ghost predicate Implements(p: Policy)
      reads this, Repr
    {
      Valid() && forall c, s :: Holds(c, s) <==> Grants(p, c, s)
    }

    constructor ()
      ensures Valid() && fresh(Repr)
      ensures forall c, s :: !Holds(c, s)
    {
      entries := map[];
      Repr := {this};
    }

    /** No two places of the index share a map, and no two cells share a set. */
    lemma PlacesAreSeparate(r: string, t: string, r': string, t': string)
      requires Valid() && Has(r, t) && Has(r', t')
      ensures
        var a, b := entries[r].entries[t], entries[r'].entries[t'];
        && a.read != b.write
        && (r != r' ==> entries[r] != entries[r'])
        && ((r, t) != (r', t') ==> a.read != b.read && a.write != b.write)
    {
    }

    method EnsureResource(r: string)
      requires Valid()
      modifies Repr
      ensures Valid() && fresh(Repr - old(Repr))
      ensures r in entries
      ensures forall c, s :: Holds(c, s) <==> old(Holds(c, s))
    {
      if r !in entries {
        var t := new Tenants(r);
        entries := entries[r := t];
        Repr := Repr + {t};
      }
    }

    /** Puts an entry whose sets are new and empty where there was none. */
    method AddTenant(ts: Tenants, t: string, read: SubjectSet, write: SubjectSet)
      requires Valid() && ts.home in entries && entries[ts.home] == ts && t !in ts.entries
      requires read.home == Cell(ts.home, t, READ) && write.home == Cell(ts.home, t, WRITE)
      requires read !in Repr && write !in Repr && read.members == write.members == {}
      modifies Repr
      ensures Valid() && Repr == old(Repr) + {read, write} && ts.home in entries && Has(ts.home, t)
      ensures forall c, s :: Holds(c, s) <==> old(Holds(c, s))
    {
      ts.entries := ts.entries[t := Tenant(read, write)];
      Repr := Repr + {read, write};
    }

    method EnsureTenant(r: string, t: string)
      requires Valid() && r in entries
      modifies Repr
      ensures Valid() && fresh(Repr - old(Repr))
      ensures r in entries && Has(r, t)
      ensures forall c, s :: Holds(c, s) <==> old(Holds(c, s))
    {
      if t !in entries[r].entries {
        var read := new SubjectSet(Cell(r, t, READ));
        var write := new SubjectSet(Cell(r, t, WRITE));
        AddTenant(entries[r], t, read, write);
      }
    }

    /** One insertion changes one cell, and only if the permission is read or write. */
    method Insert(r: string, t: string, s: Subject, p: Permission)
      requires Valid() && Has(r, t)
      modifies Repr
      ensures Valid() && Repr == old(Repr) && Has(r, t)
      ensures forall c, x :: Holds(c, x) <==>
        old(Holds(c, x)) || (c == Cell(r, t, p) && x == s && (p == READ || p == WRITE))
    {
      var tenant := entries[r].entries[t];
      if p == READ {
        tenant.read.members := tenant.read.members + {s};
      } else if p == WRITE {
        tenant.write.members := tenant.write.members + {s};
      }
    }

    method GrantPermissions(r: string, t: string, s: Subject, permissions: seq<Permission>)
      requires Valid() && Has(r, t)
      modifies Repr
      ensures Valid() && Repr == old(Repr) && Has(r, t)
      ensures forall c, x :: Holds(c, x) <==>
        || old(Holds(c, x))
        || (x == s && Covers(Role("", [r], [t], permissions), c))
    {
      for i := 0 to |permissions|
        invariant Valid() && Repr == old(Repr) && Has(r, t)
        invariant forall c, x :: Holds(c, x) <==>
          || old(Holds(c, x))
          || (x == s && Covers(Role("", [r], [t], permissions[..i]), c))
      {
        Insert(r, t, s, permissions[i]);
        assert permissions[..i + 1] == permissions[..i] + [permissions[i]];
      }
      assert permissions[..|permissions|] == permissions;
    }

    method GrantSubjects(r: string, t: string, subjects: seq<Subject>, permissions: seq<Permission>)
      requires Valid() && Has(r, t)
      modifies Repr
      ensures Valid() && Repr == old(Repr) && Has(r, t)
      ensures forall c, x :: Holds(c, x) <==>
        || old(Holds(c, x))
        || (x in subjects && Covers(Role("", [r], [t], permissions), c))
    {
      for i := 0 to |subjects|
        invariant Valid() && Repr == old(Repr) && Has(r, t)
        invariant forall c, x :: Holds(c, x) <==>
          || old(Holds(c, x))
          || (x in subjects[..i] && Covers(Role("", [r], [t], permissions), c))
      {
        GrantPermissions(r, t, subjects[i], permissions);
        assert subjects[..i + 1] == subjects[..i] + [subjects[i]];
      }
      assert subjects[..|subjects|] == subjects;
    }

    method GrantTenants(r: string, role: Role, subjects: seq<Subject>)
      requires Valid() && r in entries
      modifies Repr
      ensures Valid() && fresh(Repr - old(Repr)) && r in entries
      ensures forall c, x :: Holds(c, x) <==>
        || old(Holds(c, x))
        || (x in subjects && Covers(role.(resources := [r]), c))
    {
      for i := 0 to |role.tenants|
        invariant Valid() && fresh(Repr - old(Repr)) && r in entries
        invariant forall c, x :: Holds(c, x) <==>
          || old(Holds(c, x))
          || (x in subjects && Covers(role.(resources := [r], tenants := role.tenants[..i]), c))
      {
        EnsureTenant(r, role.tenants[i]);
        GrantSubjects(r, role.tenants[i], subjects, role.permissions);
        assert role.tenants[..i + 1] == role.tenants[..i] + [role.tenants[i]];
      }
      assert role.tenants[..|role.tenants|] == role.tenants;
    }

    method GrantRole(role: Role, subjects: seq<Subject>)
      requires Valid()
      modifies Repr
      ensures Valid() && fresh(Repr - old(Repr))
      ensures forall c, x :: Holds(c, x) <==> old(Holds(c, x)) || (x in subjects && Covers(role, c))
    {
      for i := 0 to |role.resources|
        invariant Valid() && fresh(Repr - old(Repr))
        invariant forall c, x :: Holds(c, x) <==>
          || old(Holds(c, x))
          || (x in subjects && Covers(role.(resources := role.resources[..i]), c))
      {
        EnsureResource(role.resources[i]);
        GrantTenants(role.resources[i], role, subjects);
        assert role.resources[..i + 1] == role.resources[..i] + [role.resources[i]];
      }
      assert role.resources[..|role.resources|] == role.resources;
    }

    method GrantBinding(ghost roles: seq<Role>, defined: map<string, Role>, rb: RoleBinding)
      requires Valid() && Defines(defined, roles)
      modifies Repr
      ensures Valid() && fresh(Repr - old(Repr))
      ensures forall c, x :: Holds(c, x) <==> old(Holds(c, x)) || (x in rb.subjects && Reaches(roles, rb, c))
    {
      for i := 0 to |rb.roles|
        invariant Valid() && fresh(Repr - old(Repr))
        invariant forall c, x :: Holds(c, x) <==>
          || old(Holds(c, x))
          || (x in rb.subjects && Reaches(roles, rb.(roles := rb.roles[..i]), c))
      {
        assert rb.roles[..i + 1] == rb.roles[..i] + [rb.roles[i]];
        ReachesOneMore(roles, rb, i);
        if rb.roles[i] in defined {
          GrantRole(defined[rb.roles[i]], rb.subjects);
        }
      }
      assert rb.(roles := rb.roles[..|rb.roles|]) == rb;
    }

    /** Looks the subject up directly and then through its groups. */
    method Lookup(subject: string, groups: seq<string>, permission: Permission, resource: string, tenant: string)
      returns (allowed: bool)
      requires Valid()
      ensures
        var c := Cell(resource, tenant, permission);
        allowed <==> Holds(c, Subject(subject, USER)) || exists g :: g in groups && Holds(c, Subject(g, GROUP))
    {
      if resource !in entries {
        return false;
      }
      var ts := entries[resource];
      if tenant !in ts.entries {
        return false;
      }
      var t := ts.entries[tenant];
      var pmap: set<Subject> := {};
      if permission == READ {
        pmap := t.read.members;
      } else if permission == WRITE {
        pmap := t.write.members;
      }
      assert forall s :: s in pmap <==> Holds(Cell(resource, tenant, permission), s);
      if Subject(subject, USER) in pmap {
        return true;
      }
      for i := 0 to |groups|
        invariant forall k :: 0 <= k < i ==> Subject(groups[k], GROUP) !in pmap
      {
        if Subject(groups[i], GROUP) in pmap {
          return true;
        }
      }
      return false;
    }

    /** The lookup answers as any policy does that the index implements. */
    method Authorize(subject: string, groups: seq<string>, permission: Permission, resource: string, tenant: string)
      returns (allowed: bool)
      requires Valid()
      ensures
        var c := Cell(resource, tenant, permission);
        allowed <==> Holds(c, Subject(subject, USER)) || exists g :: g in groups && Holds(c, Subject(g, GROUP))
      ensures forall p :: Implements(p) ==>
        (allowed <==> Permits(p, Query(subject, groups, Cell(resource, tenant, permission))))
    {
      ghost var c := Cell(resource, tenant, permission);
      allowed := Lookup(subject, groups, permission, resource, tenant);
      forall p | Implements(p) ensures allowed <==> Permits(p, Query(subject, groups, c)) {
        PermitsBySubject(p, Query(subject, groups, c));
      }
    }
  }

  method NameRoles(roles: seq<Role>) returns (defined: map<string, Role>)
    ensures Defines(defined, roles)
  {
    defined := map[];
    for i := 0 to |roles|
      invariant Defines(defined, roles[..i])
    {
      defined := defined[roles[i].name := roles[i]];
      assert roles[..i + 1][..i] == roles[..i];
    }
    assert roles[..|roles|] == roles;
  }

  /** The compiled index stores exactly what the roles and bindings grant. */
  method NewAuthorizer(roles: seq<Role>, bindings: seq<RoleBinding>) returns (index: Resources)
    ensures fresh(index) && fresh(index.Repr)
    ensures index.Implements(Policy(roles, bindings))
  {
    var defined := NameRoles(roles);
    index := new Resources();
    for i := 0 to |bindings|
      invariant index.Valid() && fresh(index) && fresh(index.Repr)
      invariant forall c, s :: index.Holds(c, s) <==> Grants(Policy(roles, bindings[..i]), c, s)
    {
      index.GrantBinding(roles, defined, bindings[i]);
      assert bindings[..i + 1] == bindings[..i] + [bindings[i]];
      assert forall rb :: rb in bindings[..i + 1] <==> rb in bindings[..i] || rb == bindings[i];
    }
    assert bindings[..|bindings|] == bindings;
  }
}
