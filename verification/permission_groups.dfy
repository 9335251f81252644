/**
 * `groupPermissionsByModule` (app/utils/common.ts): permission records are
 * collected into one group per module, in a plain object keyed by module name,
 * and the object's values are returned.
 */
module PermissionGroups {
  import opened Wrappers
  import opened InsertionOrder
  import opened PropertyKeys

  /** A permission record `{module, ...rest}`: the module it belongs to and its other fields. */
  datatype PermissionRecord<R> = PermissionRecord(moduleName: string, rest: R)

  /** One element of the result, `{module, actions}`. */
  datatype ModuleGroup<R> = ModuleGroup(moduleName: string, actions: seq<R>)

  /** The exception the grouping can raise. */
  datatype Fault = TypeError

  /** The module of each record, in input order. */
  function Modules<R>(ps: seq<PermissionRecord<R>>): (ms: seq<string>)
    ensures |ms| == |ps|
  {
    seq(|ps|, i requires 0 <= i < |ps| => ps[i].moduleName)
  }

  /** The records of module `m`, in input order, each without its `module` field. */
  function ActionsOf<R>(ps: seq<PermissionRecord<R>>, m: string): (actions: seq<R>) {
    if ps == [] then []
    else
      var p := ps[|ps| - 1];
      ActionsOf(ps[..|ps| - 1], m) + (if p.moduleName == m then [p.rest] else [])
  }

  /** The groups of the modules `ks`, in that order. */
  function GroupsFor<R>(ks: seq<string>, ps: seq<PermissionRecord<R>>): (gs: seq<ModuleGroup<R>>)
    ensures |gs| == |ks|
  {
    seq(|ks|, j requires 0 <= j < |ks| => ModuleGroup(ks[j], ActionsOf(ps, ks[j])))
  }

  /**
   * The intended grouping: one group per distinct module, listed in the order a
   * plain object lists its keys, each holding the module's records in input order.
   */
  function Grouped<R>(ps: seq<PermissionRecord<R>>): (gs: seq<ModuleGroup<R>>) {
    GroupsFor(KeyOrder(Dedupe(Modules(ps))), ps)
  }

  /** The records a group stands for: `{module, ...action}` for each of its actions. */
  function Records<R>(g: ModuleGroup<R>): (ps: seq<PermissionRecord<R>>)
    ensures |ps| == |g.actions|
  {
    seq(|g.actions|, i requires 0 <= i < |g.actions| => PermissionRecord(g.moduleName, g.actions[i]))
  }

  /** The records all groups stand for, group after group. */
  function Regroup<R>(gs: seq<ModuleGroup<R>>): (ps: seq<PermissionRecord<R>>) {
    if gs == [] then [] else Records(gs[0]) + Regroup(gs[1..])
  }

  /** The positions of the records of module `m`, ascending. */
  function PositionsOf<R>(ps: seq<PermissionRecord<R>>, m: string): (r: seq<nat>)
    ensures forall i: nat :: i in r <==> i < |ps| && ps[i].moduleName == m
    ensures forall a, b :: 0 <= a < b < |r| ==> r[a] < r[b]
  {
    if ps == [] then []
    else
      var n := |ps| - 1;
      var r := PositionsOf(ps[..n], m);
      assert forall a :: 0 <= a < |r| ==> r[a] in r;
      r + (if ps[n].moduleName == m then [n] else [])
  }

  /** The accumulator's keys after the records `ps`: each module seen, created in first-seen order. */
  ghost predicate KeysAccumulated<R>(acc: map<string, ModuleGroup<R>>, created: seq<string>, ps: seq<PermissionRecord<R>>) {
    && created == Dedupe(Modules(ps))
    && (forall k :: k in acc <==> k in created)
  }

  /** The accumulator's groups after the records `ps`: each holds its module's records; a missing module has none. */
  ghost predicate GroupsAccumulated<R>(acc: map<string, ModuleGroup<R>>, ps: seq<PermissionRecord<R>>) {
    && (forall k | k in acc :: acc[k] == ModuleGroup(k, ActionsOf(ps, k)))
    && (forall k | k !in acc :: ActionsOf(ps, k) == [])
  }

  /** One more record extends its own module's actions and no other's. */
  lemma ActionsOfSnoc<R>(ps: seq<PermissionRecord<R>>, i: nat, k: string)
    requires i < |ps|
    ensures ActionsOf(ps[..i + 1], k) == ActionsOf(ps[..i], k) + (if ps[i].moduleName == k then [ps[i].rest] else [])
  {
    assert ps[..i + 1][..i] == ps[..i];
  }

  /** One more record adds its module to the list of modules seen. */
  lemma ModulesSnoc<R>(ps: seq<PermissionRecord<R>>, i: nat)
    requires i < |ps|
    ensures Modules(ps[..i + 1]) == Modules(ps[..i]) + [ps[i].moduleName]
  {
    assert ps[..i + 1][..i] == ps[..i];
  }

  /** The reduce callback creates a key exactly for a module not seen before. */
  lemma AccumulateKey<R>(acc: map<string, ModuleGroup<R>>, created: seq<string>, ps: seq<PermissionRecord<R>>, i: nat)
    requires i < |ps| && KeysAccumulated(acc, created, ps[..i])
    ensures var name := ps[i].moduleName;
      KeysAccumulated(acc[name := ModuleGroup(name, [])], if name in acc then created else created + [name], ps[..i + 1])
  {
    var name := ps[i].moduleName;
    ModulesSnoc(ps, i);
    DedupeSnoc(Modules(ps[..i]), name);
    var acc' := acc[name := ModuleGroup(name, [])];
    var created' := if name in acc then created else created + [name];
    assert created' == Dedupe(Modules(ps[..i + 1]));
    forall k ensures k in acc' <==> k in created' {
      assert k in acc' <==> k in acc || k == name;
      assert k in created' <==> k in created || k == name;
    }
  }

  /** The reduce callback appends the record, without its module, to its module's group. */
  lemma AccumulateAction<R>(acc: map<string, ModuleGroup<R>>, ps: seq<PermissionRecord<R>>, i: nat)
    requires i < |ps| && GroupsAccumulated(acc, ps[..i])
    ensures var name := ps[i].moduleName;
      var acc' := if name in acc then acc else acc[name := ModuleGroup(name, [])];
      GroupsAccumulated(acc'[name := acc'[name].(actions := acc'[name].actions + [ps[i].rest])], ps[..i + 1])
  {
    forall k ensures ActionsOf(ps[..i + 1], k) == ActionsOf(ps[..i], k) + (if ps[i].moduleName == k then [ps[i].rest] else []) {
      ActionsOfSnoc(ps, i, k);
    }
  }

  /** Once every record is in, every record's module is a key of the accumulator. */
  lemma AllModulesKeyed<R>(acc: map<string, ModuleGroup<R>>, created: seq<string>, ps: seq<PermissionRecord<R>>)
    requires KeysAccumulated(acc, created, ps)
    ensures forall k | k in created :: k in acc
    ensures forall j :: 0 <= j < |ps| ==> ps[j].moduleName in acc
  {
    forall j | 0 <= j < |ps| ensures ps[j].moduleName in acc {
      assert Modules(ps)[j] == ps[j].moduleName;
    }
  }

  /** Once every record is in, `Object.values` of the accumulator is the intended grouping. */
  lemma GroupingDone<R>(acc: map<string, ModuleGroup<R>>, created: seq<string>, ps: seq<PermissionRecord<R>>)
    requires KeysAccumulated(acc, created, ps) && GroupsAccumulated(acc, ps)
    ensures forall k | k in created :: k in acc
    ensures forall j :: 0 <= j < |ps| ==> ps[j].moduleName in acc
    ensures ObjectValues(acc, created) == Grouped(ps)
  {
    AllModulesKeyed(acc, created, ps);
    var order := KeyOrder(created);
    var vs, gs := ObjectValues(acc, created), Grouped(ps);
    assert |vs| == |order| == |gs|;
    forall j | 0 <= j < |order| ensures vs[j] == gs[j] {
      assert order[j] in multiset(order);
      assert vs[j] == acc[order[j]];
    }
  }

  /**
   * `groupPermissionsByModule` as written. The accumulator is `{}`, which
   * inherits from `Object.prototype`: `!acc[module]` is false for an inherited
   * name, so no group is created for it, `acc[module].actions` is `undefined`,
   * and `push` throws a TypeError.
   */
  method GroupPermissionsByModule<R>(permissions: seq<PermissionRecord<R>>)
    returns (result: Result<seq<ModuleGroup<R>>, Fault>)
    ensures result.Failure? <==> exists i :: 0 <= i < |permissions| && permissions[i].moduleName in InheritedNames
    ensures result.Success? ==> result.value == Grouped(permissions)
  {
    var acc: map<string, ModuleGroup<R>> := map[];
    var created: seq<string> := [];
    for i := 0 to |permissions|
      invariant KeysAccumulated(acc, created, permissions[..i])
      invariant GroupsAccumulated(acc, permissions[..i])
      invariant forall k | k in acc :: k !in InheritedNames
    {
      var name, rest := permissions[i].moduleName, permissions[i].rest;
      AccumulateKey(acc, created, permissions, i);
      AccumulateAction(acc, permissions, i);
      // `!acc[module]`: `acc[module]` is the module's group, or else what `{}`
      // inherits under that name, or else `undefined`.
      if !(name in acc || name in InheritedNames) {
        acc := acc[name := ModuleGroup(name, [])];
        created := created + [name];
      }
      if name !in acc {
        // `acc[module]` is an inherited member: its `actions` is `undefined`, and
        // calling `push` on it throws.
        assert permissions[i].moduleName in InheritedNames;
        return Failure(TypeError);
      }
      acc := acc[name := acc[name].(actions := acc[name].actions + [rest])];
    }
    assert permissions[..|permissions|] == permissions;
    GroupingDone(acc, created, permissions);
    result := Success(ObjectValues(acc, created));
  }

  /**
   * `groupPermissionsByModule` with an accumulator that inherits nothing
   * (`Object.create(null)`), so that `acc[module]` sees own keys only: every
   * input is grouped. (`Object.hasOwn` alone would not do: assigning
   * `acc["__proto__"]` on `{}` replaces the prototype instead of creating a key.)
   */
  method GroupPermissionsByModuleOwnKeys<R>(permissions: seq<PermissionRecord<R>>)
    returns (groups: seq<ModuleGroup<R>>)
    ensures groups == Grouped(permissions)
  {
    var acc: map<string, ModuleGroup<R>> := map[];
    var created: seq<string> := [];
    for i := 0 to |permissions|
      invariant KeysAccumulated(acc, created, permissions[..i])
      invariant GroupsAccumulated(acc, permissions[..i])
    {
      var name, rest := permissions[i].moduleName, permissions[i].rest;
      AccumulateKey(acc, created, permissions, i);
      AccumulateAction(acc, permissions, i);
      if name !in acc {
        acc := acc[name := ModuleGroup(name, [])];
        created := created + [name];
      }
      acc := acc[name := acc[name].(actions := acc[name].actions + [rest])];
    }
    assert permissions[..|permissions|] == permissions;
    GroupingDone(acc, created, permissions);
    groups := ObjectValues(acc, created);
  }

  // Properties of the intended grouping, which both methods above compute.

  /** A module has actions exactly when some record belongs to it. */
  lemma {:induction false} ActionsOfNonEmpty<R>(ps: seq<PermissionRecord<R>>, m: string)
    ensures ActionsOf(ps, m) != [] <==> m in Modules(ps)
  {
    if ps != [] {
      var n := |ps| - 1;
      ActionsOfNonEmpty(ps[..n], m);
      assert Modules(ps) == Modules(ps[..n]) + [ps[n].moduleName];
    }
  }

  /**
   * There is one group per module that occurs in the input and no other, and
   * every group has at least one action.
   */
  lemma GroupedModules<R>(ps: seq<PermissionRecord<R>>)
    ensures forall i, j :: 0 <= i < j < |Grouped(ps)| ==> Grouped(ps)[i].moduleName != Grouped(ps)[j].moduleName
    ensures forall i :: 0 <= i < |Grouped(ps)| ==> Grouped(ps)[i].actions != []
  {
    var seen := Dedupe(Modules(ps));
    var order := KeyOrder(seen);
    var gs := Grouped(ps);
    KeyOrderDistinct(seen);
    forall i | 0 <= i < |gs| ensures gs[i].actions != [] {
      assert gs[i].moduleName == order[i] && order[i] in seen;
      ActionsOfNonEmpty(ps, order[i]);
    }
  }

  /** A module has a group exactly when some record belongs to it. */
  lemma GroupedModuleOccurs<R>(ps: seq<PermissionRecord<R>>, m: string)
    ensures (exists i :: 0 <= i < |Grouped(ps)| && Grouped(ps)[i].moduleName == m) <==>
            (exists j :: 0 <= j < |ps| && ps[j].moduleName == m)
  {
    var seen := Dedupe(Modules(ps));
    var order := KeyOrder(seen);
    var gs := Grouped(ps);
    KeyOrderDistinct(seen);
    if exists j :: 0 <= j < |ps| && ps[j].moduleName == m {
      var j :| 0 <= j < |ps| && ps[j].moduleName == m;
      assert Modules(ps)[j] == m;
      assert m in multiset(order);
      var i :| 0 <= i < |order| && order[i] == m;
      assert gs[i].moduleName == m;
    }
    if exists i :: 0 <= i < |gs| && gs[i].moduleName == m {
      var i :| 0 <= i < |gs| && gs[i].moduleName == m;
      assert order[i] in seen;
      var j :| 0 <= j < |ps| && Modules(ps)[j] == m;
    }
  }

  /** The records of no groups. */
  lemma {:induction false} RegroupNothing<R>(ks: seq<string>)
    ensures Regroup(GroupsFor<R>(ks, [])) == []
  {
    if ks != [] {
      assert GroupsFor<R>(ks, [])[1..] == GroupsFor<R>(ks[1..], []);
      RegroupNothing<R>(ks[1..]);
    }
  }

  /** The records of a list of groups are those of its first group followed by the rest's. */
  lemma RegroupCons<R>(ks: seq<string>, ps: seq<PermissionRecord<R>>)
    requires ks != []
    ensures Regroup(GroupsFor(ks, ps)) == Records(ModuleGroup(ks[0], ActionsOf(ps, ks[0]))) + Regroup(GroupsFor(ks[1..], ps))
  {
    assert GroupsFor(ks, ps)[1..] == GroupsFor(ks[1..], ps);
  }

  /** An action appended to a group adds one record at the end of the group's records. */
  lemma RecordsSnoc<R>(k: string, actions: seq<R>, r: R)
    ensures Records(ModuleGroup(k, actions + [r])) == Records(ModuleGroup(k, actions)) + [PermissionRecord(k, r)]
  {
  }

  /** One more record adds itself to the records of its own module's group and to no other group's. */
  lemma GroupSnoc<R>(k: string, ps: seq<PermissionRecord<R>>, p: PermissionRecord<R>)
    ensures multiset(Records(ModuleGroup(k, ActionsOf(ps + [p], k)))) ==
            multiset(Records(ModuleGroup(k, ActionsOf(ps, k)))) + (if p.moduleName == k then multiset{p} else multiset{})
  {
    assert (ps + [p])[..|ps|] == ps;
    var before := ActionsOf(ps, k);
    if p.moduleName == k {
      assert ActionsOf(ps + [p], k) == before + [p.rest];
      RecordsSnoc(k, before, p.rest);
      assert PermissionRecord(k, p.rest) == p;
    } else {
      assert ActionsOf(ps + [p], k) == before;
    }
  }

  /** The tail of a list of distinct keys is distinct and lacks the head. */
  lemma DistinctTail(ks: seq<string>)
    requires ks != [] && Distinct(ks)
    ensures Distinct(ks[1..]) && ks[0] !in ks[1..]
    ensures forall x :: x in ks <==> x == ks[0] || x in ks[1..]
  {
    assert ks == [ks[0]] + ks[1..];
  }

  /** A record added to the input turns up once, in its module's group, if that module has a group. */
  lemma {:induction false} RegroupSnoc<R>(ks: seq<string>, ps: seq<PermissionRecord<R>>, p: PermissionRecord<R>)
    requires Distinct(ks)
    ensures multiset(Regroup(GroupsFor(ks, ps + [p]))) ==
            multiset(Regroup(GroupsFor(ks, ps))) + (if p.moduleName in ks then multiset{p} else multiset{})
  {
    if ks != [] {
      RegroupCons(ks, ps);
      RegroupCons(ks, ps + [p]);
      GroupSnoc(ks[0], ps, p);
      DistinctTail(ks);
      RegroupSnoc(ks[1..], ps, p);
    }
  }

  /** Grouping by distinct keys that cover every record's module loses no record and invents none. */
  lemma {:induction false} RegroupCovers<R>(ks: seq<string>, ps: seq<PermissionRecord<R>>)
    requires Distinct(ks)
    requires forall j :: 0 <= j < |ps| ==> ps[j].moduleName in ks
    ensures multiset(Regroup(GroupsFor(ks, ps))) == multiset(ps)
  {
    if ps == [] {
      RegroupNothing<R>(ks);
    } else {
      var n := |ps| - 1;
      assert ps == ps[..n] + [ps[n]];
      RegroupCovers(ks, ps[..n]);
      RegroupSnoc(ks, ps[..n], ps[n]);
    }
  }

  /**
   * Every input record appears exactly once across the groups, in the group of
   * its own module: putting `module` back on each action gives the input again,
   * up to order. So there are as many actions as records.
   */
  lemma GroupedRegroup<R>(ps: seq<PermissionRecord<R>>)
    ensures multiset(Regroup(Grouped(ps))) == multiset(ps)
    ensures |Regroup(Grouped(ps))| == |ps|
  {
    var seen := Dedupe(Modules(ps));
    var order := KeyOrder(seen);
    KeyOrderDistinct(seen);
    forall j | 0 <= j < |ps| ensures ps[j].moduleName in order {
      assert Modules(ps)[j] == ps[j].moduleName;
      assert ps[j].moduleName in multiset(order);
    }
    RegroupCovers(order, ps);
    assert |multiset(Regroup(Grouped(ps)))| == |multiset(ps)|;
  }

  /** Position by position, a module's actions are the rests of that module's records. */
  lemma {:induction false} ActionsAtPositions<R>(ps: seq<PermissionRecord<R>>, m: string)
    ensures |ActionsOf(ps, m)| == |PositionsOf(ps, m)|
    ensures forall a :: 0 <= a < |ActionsOf(ps, m)| ==>
              PositionsOf(ps, m)[a] < |ps| && ActionsOf(ps, m)[a] == ps[PositionsOf(ps, m)[a]].rest
  {
    if ps != [] {
      var n := |ps| - 1;
      ActionsAtPositions(ps[..n], m);
      var pos := PositionsOf(ps[..n], m);
      forall a | 0 <= a < |pos| ensures pos[a] < n {
        assert pos[a] in pos;
      }
    }
  }

  /**
   * Each group's actions are the records of its module, in input order, each
   * without its `module` field: the a-th action comes from the a-th such record.
   */
  lemma GroupActionsInInputOrder<R>(ps: seq<PermissionRecord<R>>, g: nat)
    requires g < |Grouped(ps)|
    ensures var m, pos := Grouped(ps)[g].moduleName, PositionsOf(ps, Grouped(ps)[g].moduleName);
      && |Grouped(ps)[g].actions| == |pos|
      && (forall a, b :: 0 <= a < b < |pos| ==> pos[a] < pos[b])
      && (forall i: nat :: i in pos <==> i < |ps| && ps[i].moduleName == m)
      && (forall a :: 0 <= a < |pos| ==> pos[a] < |ps| && Grouped(ps)[g].actions[a] == ps[pos[a]].rest)
  {
    ActionsAtPositions(ps, Grouped(ps)[g].moduleName);
  }

  /** The module of each group, in order. */
  function ModuleNames<R>(gs: seq<ModuleGroup<R>>): (ms: seq<string>) {
    seq(|gs|, i requires 0 <= i < |gs| => gs[i].moduleName)
  }

  /** The groups' modules are the input's distinct modules in object key order. */
  lemma GroupedModuleNames<R>(ps: seq<PermissionRecord<R>>)
    ensures ModuleNames(Grouped(ps)) == KeyOrder(Dedupe(Modules(ps)))
  {
  }

  /**
   * Groups come in the order a plain object lists its keys: groups whose module
   * is an array index first, by ascending number; then the others, in the order
   * their module first occurs in the input.
   */
  lemma GroupedOrder<R>(ps: seq<PermissionRecord<R>>)
    ensures IndicesFirst(ModuleNames(Grouped(ps)))
    ensures InFirstSeenOrder(KeysWhere(ModuleNames(Grouped(ps)), false), Modules(ps))
  {
    var seen := Dedupe(Modules(ps));
    GroupedModuleNames(ps);
    KeyOrderIndicesFirst(seen);
    KeyOrderKeepsNames(seen);
    KeysWhereFirstSeen(seen, false);
    DedupeFirstSeen(Modules(ps));
    FirstSeenTransitive(KeysWhere(seen, false), seen, Modules(ps));
  }

  /** When no module is an array index, the groups follow the modules' first appearance in the input. */
  lemma GroupedInFirstSeenOrder<R>(ps: seq<PermissionRecord<R>>)
    requires forall j :: 0 <= j < |ps| ==> !IsArrayIndex(ps[j].moduleName)
    ensures |Grouped(ps)| == |Dedupe(Modules(ps))|
    ensures forall i :: 0 <= i < |Grouped(ps)| ==> Grouped(ps)[i].moduleName == Dedupe(Modules(ps))[i]
  {
    var seen := Dedupe(Modules(ps));
    forall i | 0 <= i < |seen| ensures !IsArrayIndex(seen[i]) {
      var j :| 0 <= j < |ps| && Modules(ps)[j] == seen[i];
    }
    KeyOrderOfNames(seen);
  }

  /** The groups of a single module. */
  lemma GroupsForSingle<R>(k: string, ps: seq<PermissionRecord<R>>)
    ensures GroupsFor([k], ps) == [ModuleGroup(k, ActionsOf(ps, k))]
  {
  }

  /** One record's module is the only key of the accumulator. */
  lemma SingleRecordKeys<R>(p: PermissionRecord<R>)
    ensures KeyOrder(Dedupe(Modules([p]))) == [p.moduleName]
  {
    SingleRecordModules(p);
    DedupeDistinct([p.moduleName]);
    KeyOrderSingle(p.moduleName);
  }

  /** One record's module, and its actions. */
  lemma SingleRecordModules<R>(p: PermissionRecord<R>)
    ensures Modules([p]) == [p.moduleName]
    ensures ActionsOf([p], p.moduleName) == [p.rest]
  {
    assert [p][..0] == [];
  }

  /** One record makes one group, holding that record's rest. */
  lemma GroupedSingle<R>(p: PermissionRecord<R>)
    ensures Grouped([p]) == [ModuleGroup(p.moduleName, [p.rest])]
  {
    SingleRecordKeys(p);
    SingleRecordModules(p);
    GroupsForSingle(p.moduleName, [p]);
  }

  /**
   * A single record of module "constructor": as written, `acc["constructor"]`
   * is `Object`, so no group is made and `push` throws; with an accumulator
   * that inherits nothing, the record gets its group.
   */
  method InheritedModuleName() returns (asWritten: Result<seq<ModuleGroup<int>>, Fault>, ownKeys: seq<ModuleGroup<int>>)
    ensures asWritten == Failure(TypeError)
    ensures ownKeys == [ModuleGroup("constructor", [7])]
  {
    var ps := [PermissionRecord("constructor", 7)];
    assert ps[0].moduleName in InheritedNames;
    asWritten := GroupPermissionsByModule(ps);
    assert asWritten.error.TypeError?;
    ownKeys := GroupPermissionsByModuleOwnKeys(ps);
    GroupedSingle(ps[0]);
  }

  /** Modules "users", "10" and "2", first seen in that order, come out as "2", "10", "users". */
  lemma IntegerLikeModulesFirst()
    ensures ModuleNames(Grouped([PermissionRecord("users", 0), PermissionRecord("10", 1), PermissionRecord("2", 2)]))
            == ["2", "10", "users"]
  {
    var ps := [PermissionRecord("users", 0), PermissionRecord("10", 1), PermissionRecord("2", 2)];
    var ms := ["users", "10", "2"];
    assert Modules(ps) == ms;
    assert ms[0] != ms[1] && ms[0] != ms[2] && ms[1] != ms[2];
    DedupeDistinct(ms);
    IntegerLikeKeyOrder();
    GroupedModuleNames(ps);
  }
}
