/**
 * `convertRolesToPermissions` (app/utils/common.ts): a user's effective
 * permissions are the permissions of all their roles, each listed once, in
 * the order in which they first appear.
 */
module RolePermissions {
  import opened Wrappers
  import opened InsertionOrder

  /** A permission token such as "WRITE_GROUP". */
  type Permission = string

  /**
   * One element of the `roles` array: `null`/`undefined`, or a role object
   * whose `permissions` field may be missing.
   */
  datatype RoleEntry = Nullish | Role(permissions: Option<seq<Permission>>)

  /** What one entry adds: `role?.permissions || []`. */
  function Contribution(role: RoleEntry): (ps: seq<Permission>)
    ensures role.Role? && role.permissions.Some? ==> ps == role.permissions.value
    ensures ps != [] ==> role.Role? && role.permissions.Some?
  {
    match role
    case Role(Some(ps)) => ps
    case _ => []
  }

  /** Some entry of `roles` contributes `p`. */
  predicate Grants(roles: seq<RoleEntry>, p: Permission) {
    exists i :: 0 <= i < |roles| && p in Contribution(roles[i])
  }

  /** An entry appended to `roles` grants what it contributes, on top of what `roles` grants. */
  lemma GrantsSnoc(roles: seq<RoleEntry>, role: RoleEntry, p: Permission)
    ensures Grants(roles + [role], p) <==> Grants(roles, p) || p in Contribution(role)
  {
    var all := roles + [role];
    if Grants(all, p) && p !in Contribution(role) {
      var i :| 0 <= i < |all| && p in Contribution(all[i]);
      assert i < |roles| && all[i] == roles[i];
    }
    if Grants(roles, p) {
      var i :| 0 <= i < |roles| && p in Contribution(roles[i]);
      assert all[i] == roles[i];
    }
    if p in Contribution(role) {
      assert all[|roles|] == role;
    }
  }

  /**
   * The `reduce` that spreads each entry's contribution after the accumulator,
   * left to right: it holds exactly the permissions some entry contributes.
   */
  function Concatenated(roles: seq<RoleEntry>): (ps: seq<Permission>)
    ensures forall p :: p in ps <==> Grants(roles, p)
  {
    if roles == [] then []
    else
      var init, last := roles[..|roles| - 1], roles[|roles| - 1];
      assert roles == init + [last];
      forall p ensures Grants(roles, p) <==> Grants(init, p) || p in Contribution(last) {
        GrantsSnoc(init, last, p);
      }
      Concatenated(init) + Contribution(last)
  }

  /** `convertRolesToPermissions`: the concatenation passed through a `Set` and spread back into an array. */
  function ConvertRolesToPermissions(roles: seq<RoleEntry>): (r: seq<Permission>)
    ensures Distinct(r)
  {
    Dedupe(Concatenated(roles))
  }

  /** The reduce over `a + b` is the reduce over `a` followed by the reduce over `b`. */
  lemma {:induction false} ConcatenatedAppend(a: seq<RoleEntry>, b: seq<RoleEntry>)
    ensures Concatenated(a + b) == Concatenated(a) + Concatenated(b)
    decreases |b|
  {
    if b != [] {
      var b' := b[..|b| - 1];
      assert (a + b)[..|a + b| - 1] == a + b';
      ConcatenatedAppend(a, b');
    } else {
      assert a + b == a;
    }
  }

  /** The output lists exactly the permissions granted by some entry. */
  lemma ConvertedGrants(roles: seq<RoleEntry>, p: Permission)
    ensures p in ConvertRolesToPermissions(roles) <==> Grants(roles, p)
  {
    var c := Concatenated(roles);
    if p in c {
      var i :| 0 <= i < |c| && c[i] == p;
    }
  }

  /**
   * The output is the one list that holds each granted permission once, in the
   * order of its first occurrence across the entries' permission lists.
   */
  lemma ConvertedFirstSeen(roles: seq<RoleEntry>, t: seq<Permission>)
    ensures InFirstSeenOrder(ConvertRolesToPermissions(roles), Concatenated(roles))
    ensures InFirstSeenOrder(t, Concatenated(roles)) && (forall p :: p in t <==> Grants(roles, p))
            ==> t == ConvertRolesToPermissions(roles)
  {
    var c := Concatenated(roles);
    DedupeFirstSeen(c);
    if InFirstSeenOrder(t, c) && (forall p :: p in t <==> Grants(roles, p)) {
      forall p ensures p in t <==> p in Dedupe(c) {
        ConvertedGrants(roles, p);
      }
      FirstSeenOrderUnique(c, t, Dedupe(c));
    }
  }

  /** A null entry, or one without permissions, can be dropped from anywhere without changing the output. */
  lemma EmptyEntryContributesNothing(a: seq<RoleEntry>, role: RoleEntry, b: seq<RoleEntry>)
    requires role == Nullish || role == Role(None) || role == Role(Some([]))
    ensures ConvertRolesToPermissions(a + [role] + b) == ConvertRolesToPermissions(a + b)
  {
    ConcatenatedAppend(a + [role], b);
    ConcatenatedAppend(a, [role]);
    ConcatenatedAppend(a, b);
    assert [role][..0] == [];
    assert Concatenated([role]) == [];
    assert a + [role] + b == (a + [role]) + b;
    assert Concatenated(a) + [] == Concatenated(a);
  }

  /**
   * As a set, the output depends only on which entries occur: reordering or
   * repeating entries leaves it unchanged.
   */
  lemma SameEntriesSamePermissions(roles: seq<RoleEntry>, others: seq<RoleEntry>, p: Permission)
    requires forall role :: role in roles <==> role in others
    ensures p in ConvertRolesToPermissions(roles) <==> p in ConvertRolesToPermissions(others)
  {
    ConvertedGrants(roles, p);
    ConvertedGrants(others, p);
    if Grants(roles, p) {
      var i :| 0 <= i < |roles| && p in Contribution(roles[i]);
      assert roles[i] in others;
    }
    if Grants(others, p) {
      var i :| 0 <= i < |others| && p in Contribution(others[i]);
      assert others[i] in roles;
    }
  }

  /** The concatenation for the two sample roles. */
  lemma SampleConcatenation()
    ensures Concatenated([Role(Some(["WRITE_GROUP", "READ_GROUP"])), Role(Some(["READ_GROUP"]))])
            == ["WRITE_GROUP", "READ_GROUP", "READ_GROUP"]
  {
    var roles := [Role(Some(["WRITE_GROUP", "READ_GROUP"])), Role(Some(["READ_GROUP"]))];
    assert roles[..1] == [roles[0]] && [roles[0]][..0] == [];
    assert Concatenated([roles[0]]) == ["WRITE_GROUP", "READ_GROUP"];
  }

  /** Two roles sharing READ_GROUP give WRITE_GROUP then READ_GROUP, once each. */
  lemma SharedPermissionListedOnce()
    ensures ConvertRolesToPermissions([Role(Some(["WRITE_GROUP", "READ_GROUP"])), Role(Some(["READ_GROUP"]))])
            == ["WRITE_GROUP", "READ_GROUP"]
  {
    SampleConcatenation();
    var c := ["WRITE_GROUP", "READ_GROUP", "READ_GROUP"];
    assert c[..2] == ["WRITE_GROUP", "READ_GROUP"] && c[..2][..1] == ["WRITE_GROUP"] && c[..2][..1][..0] == [];
    assert Dedupe(c[..2]) == ["WRITE_GROUP", "READ_GROUP"];
  }
}
