/** NetworkManager as the launcher sees it: profiles and applied connections with
    version guards, while other programs edit between any two calls. */
module NetworkManagers {
  import opened Protocol

  /** The never-default settings for IPv4 and IPv6. */
  datatype Pair = Pair(v4: bool, v6: bool)

  /** `rest` stands for every other setting of the profile. */
  datatype Settings = Settings(pair: Pair, rest: nat)

  datatype Profile = Profile(settings: Settings, version: nat)

  datatype Applied = Applied(uuid: nat, settings: Settings, version: nat)

  /** An RNDIS device and, if it is active, its connection's UUID and D-Bus path. */
  datatype Link = Link(device: nat, connection: Option<(nat, nat)>)

  datatype World = World(links: seq<Link>, profiles: map<nat, Profile>, applied: map<nat, Applied>, routes: map<nat, Pair>)

  /** A change of settings always raises the version. */
  ghost predicate Follows(before: World, after: World) {
    && (forall uuid <- before.profiles :: uuid in after.profiles ==>
          ProfileFollows(before.profiles[uuid], after.profiles[uuid]))
    && (forall path <- before.applied :: path in after.applied ==>
          AppliedFollows(before.applied[path], after.applied[path]))
    && before.profiles.Keys <= after.profiles.Keys && before.applied.Keys <= after.applied.Keys
  }

  predicate ProfileFollows(before: Profile, after: Profile) {
    after.version > before.version || after == before
  }

  predicate AppliedFollows(before: Applied, after: Applied) {
    after.version > before.version || after == before
  }

  predicate Legitimate(before: World, after: World)
    ensures Legitimate(before, after) <==> Follows(before, after)
  {
    && before.profiles.Keys <= after.profiles.Keys && before.applied.Keys <= after.applied.Keys
    && (forall uuid <- before.profiles :: ProfileFollows(before.profiles[uuid], after.profiles[uuid]))
    && (forall path <- before.applied :: AppliedFollows(before.applied[path], after.applied[path]))
  }

  /** How one call is served: what others changed just before, whether it takes
      effect, and whether it reports success. */
  datatype Turn = Turn(edit: Option<World>, effect: bool, ok: bool)

  /** A call served as asked. */
  function Served(): Turn { Turn(None, true, true) }

  /** How the call `i` calls from now is served; beyond the script, as asked. */
  function TurnAt(script: seq<Turn>, i: nat): Turn {
    if i < |script| then script[i] else Served()
  }

  /** The script after `n` calls. */
  function Later(script: seq<Turn>, n: nat): seq<Turn> {
    if n <= |script| then script[n..] else []
  }

  lemma LaterLater(script: seq<Turn>, m: nat, n: nat)
    ensures Later(Later(script, m), n) == Later(script, m + n)
    ensures TurnAt(Later(script, m), n) == TurnAt(script, m + n)
  {
  }

  /** The calls that are not served as asked. */
  ghost function Faults(script: seq<Turn>): nat {
    if script == [] then 0 else (if script[0] == Served() then 0 else 1) + Faults(script[1..])
  }

  /** The next `n` calls are served as asked. */
  ghost predicate ServedFor(script: seq<Turn>, n: nat) {
    forall i :: 0 <= i < n ==> TurnAt(script, i) == Served()
  }

  lemma LaterServed(script: seq<Turn>, m: nat, n: nat)
    ensures ServedFor(script, m + n) ==> ServedFor(Later(script, m), n)
    ensures Later(Later(script, m), n) == Later(script, m + n)
  {
    LaterLater(script, m, n);
    forall i | 0 <= i < n && ServedFor(script, m + n) ensures TurnAt(Later(script, m), i) == Served() {
      LaterLater(script, m, i);
    }
  }

  function Edited(world: World, t: Turn): World {
    if t.edit.Some? && Legitimate(world, t.edit.value) then t.edit.value else world
  }

  /** A write of ours that took effect. */
  datatype Write =
    | ToProfile(uuid: nat, before: Settings, after: Settings)
    | ToDevice(path: nat, uuid: nat, before: Settings, after: Settings)

  class Manager {
    var world: World
    var script: seq<Turn>
    /** The latest persistent pair and the latest applied connection read, what
        the device checks said, and every write of ours. */
    ghost var lastRead: Option<(nat, Pair)>
    ghost var lastActive: Option<(nat, nat, Pair)>
    ghost var checks: seq<(nat, bool)>
    ghost var writes: seq<Write>

    constructor (world: World, script: seq<Turn>)
      ensures this.world == world && this.script == script
      ensures writes == [] && checks == [] && lastRead.None? && lastActive.None?
    {
      this.world, this.script, lastRead, lastActive, checks, writes := world, script, None, None, [], [];
    }

    /** Nobody else edits. */
    ghost predicate Quiet()
      reads this
    {
      forall t <- script :: t.edit.None?
    }

    /** The calls ahead that are not served as asked. */
    ghost function Trouble(): nat
      reads this
    {
      Faults(script)
    }

    method Serve() returns (t: Turn)
      modifies this`world, this`script
      ensures t == TurnAt(old(script), 0) && script == Later(old(script), 1) && world == Edited(old(world), t)
      ensures Follows(old(world), world)
      ensures old(Quiet()) ==> Quiet() && world == old(world)
      ensures Trouble() + (if t == Served() then 0 else 1) == old(Trouble())
    {
      if script == [] {
        return Served();
      }
      t := script[0];
      script := script[1..];
      world := Edited(world, t);
    }

    method Devices() returns (r: Option<seq<Link>>)
      modifies this`world, this`script
      ensures script == Later(old(script), 1) && (r.Some? ==> r.value == world.links)
      ensures old(Quiet()) ==> Quiet() && world == old(world)
      ensures Trouble() <= old(Trouble()) && (r.None? ==> Trouble() < old(Trouble()))
      ensures TurnAt(old(script), 0) == Served() ==> Trouble() == old(Trouble())
    {
      hide Faults;
      var t := Serve();
      r := if t.ok then Some(world.links) else None;
    }

    method VerifyDevice(device: nat) returns (r: Option<bool>)
      modifies this`world, this`script, this`checks
      ensures script == Later(old(script), 1) && r == if TurnAt(old(script), 0).ok then Some(Present(world, device)) else None
      ensures checks == old(checks) + (if r.Some? then [(device, r.value)] else [])
      ensures old(Quiet()) ==> Quiet() && world == old(world)
      ensures Trouble() <= old(Trouble()) && (r.None? ==> Trouble() < old(Trouble()))
      ensures TurnAt(old(script), 0) == Served() ==> Trouble() == old(Trouble())
    {
      hide Faults;
      var t := Serve();
      r := if t.ok then Some(Present(world, device)) else None;
      checks := checks + (if r.Some? then [(device, r.value)] else []);
    }

    method DefaultRoutes(device: nat) returns (r: Option<Pair>)
      modifies this`world, this`script
      ensures script == Later(old(script), 1) && (r.Some? ==> device in world.routes && r.value == world.routes[device])
      ensures old(Quiet()) ==> Quiet() && world == old(world)
      ensures Trouble() <= old(Trouble()) && (r.None? && device in world.routes ==> Trouble() < old(Trouble()))
      ensures TurnAt(old(script), 0) == Served() ==> Trouble() == old(Trouble())
    {
      hide Faults;
      var t := Serve();
      r := if t.ok && device in world.routes then Some(world.routes[device]) else None;
    }

    method ReadProfile(uuid: nat) returns (r: Option<Pair>)
      modifies this`world, this`script, this`lastRead
      ensures script == Later(old(script), 1) && world == Edited(old(world), TurnAt(old(script), 0))
      ensures r.Some? <==> TurnAt(old(script), 0).ok && uuid in world.profiles
      ensures r.Some? ==> r.value == world.profiles[uuid].settings.pair && lastRead == Some((uuid, r.value))
      ensures old(Quiet()) ==> Quiet() && world == old(world)
      ensures Trouble() <= old(Trouble()) && (r.None? && uuid in world.profiles ==> Trouble() < old(Trouble()))
      ensures TurnAt(old(script), 0) == Served() ==> Trouble() == old(Trouble())
    {
      hide Faults, Edited;
      var t := Serve();
      if !t.ok || uuid !in world.profiles {
        return None;
      }
      r := Some(world.profiles[uuid].settings.pair);
      lastRead := Some((uuid, r.value));
    }

    method ReadActive(path: nat) returns (r: Option<(nat, Pair)>)
      modifies this`world, this`script, this`lastActive
      ensures script == Later(old(script), 1)
      ensures r.Some? ==> path in world.applied && r.value == (world.applied[path].uuid, world.applied[path].settings.pair)
      ensures r.Some? ==> lastActive == Some((path, r.value.0, r.value.1))
      ensures old(Quiet()) ==> Quiet() && world == old(world)
      ensures Trouble() <= old(Trouble()) && (r.None? && path in world.applied ==> Trouble() < old(Trouble()))
      ensures TurnAt(old(script), 0) == Served() ==> Trouble() == old(Trouble())
    {
      var applied := GetApplied(path);
      r := if applied.Some? then Some((applied.value.uuid, applied.value.settings.pair)) else None;
    }

    method GetVersion(uuid: nat) returns (r: Option<nat>)
      modifies this`world, this`script
      ensures Follows(old(world), world)
      ensures script == Later(old(script), 1) && (r.Some? ==> uuid in world.profiles && r.value == world.profiles[uuid].version)
      ensures old(Quiet()) ==> Quiet() && world == old(world)
      ensures Trouble() <= old(Trouble()) && (r.None? && uuid in world.profiles ==> Trouble() < old(Trouble()))
      ensures TurnAt(old(script), 0) == Served() ==> Trouble() == old(Trouble())
    {
      hide Faults;
      var t := Serve();
      r := if t.ok && uuid in world.profiles then Some(world.profiles[uuid].version) else None;
    }

    method GetSettings(uuid: nat) returns (r: Option<Settings>)
      modifies this`world, this`script
      ensures Follows(old(world), world)
      ensures script == Later(old(script), 1) && (r.Some? ==> uuid in world.profiles && r.value == world.profiles[uuid].settings)
      ensures old(Quiet()) ==> Quiet() && world == old(world)
      ensures Trouble() <= old(Trouble()) && (r.None? && uuid in world.profiles ==> Trouble() < old(Trouble()))
      ensures TurnAt(old(script), 0) == Served() ==> Trouble() == old(Trouble())
    {
      hide Faults;
      var t := Serve();
      r := if t.ok && uuid in world.profiles then Some(world.profiles[uuid].settings) else None;
    }

    /** NetworkManager refuses the whole profile if its version has moved. */
    method Update2(uuid: nat, settings: Settings, version: nat) returns (ok: bool)
      requires uuid in world.profiles && world.profiles[uuid].version >= version
      modifies this`world, this`script, this`writes
      ensures script == Later(old(script), 1)
      ensures writes == old(writes) || writes == old(writes) + [ToProfile(uuid, old(world).profiles[uuid].settings, settings)]
      ensures ok ==> writes != old(writes)
      ensures old(Quiet()) ==> Quiet() && world == (if writes == old(writes) then old(world) else Updated(old(world), uuid, settings))
      ensures Trouble() <= old(Trouble())
      ensures old(Quiet()) && !ok && old(world).profiles[uuid].version == version ==> Trouble() < old(Trouble())
      ensures TurnAt(old(script), 0) == Served() ==> Trouble() == old(Trouble())
    {
      hide Faults;
      var t := Serve();
      ok := t.ok && t.effect && world.profiles[uuid].version == version;
      if t.effect && world.profiles[uuid].version == version {
        writes := writes + [ToProfile(uuid, world.profiles[uuid].settings, settings)];
        world := Updated(world, uuid, settings);
      }
    }

    /** Reads the version before the settings, so that an edit in between makes
        the write fail; the pair is replaced, everything else is kept. */
    method GuardedWrite(uuid: nat, expected: Pair, desired: Pair) returns (ok: bool, version: nat)
      modifies this`world, this`script, this`writes
      ensures writes == old(writes) || (|writes| == |old(writes)| + 1 && old(writes) <= writes
        && ProfileWrite(writes[|old(writes)|], uuid, expected, desired))
      ensures ok ==> writes != old(writes)
      ensures old(Quiet()) ==> Quiet()
      ensures old(Quiet()) && (ok || world != old(world)) ==> PairUpdated(old(world), world, uuid, expected, desired)
      ensures old(Quiet()) && ok ==> version == old(world).profiles[uuid].version > 0
      ensures Trouble() <= old(Trouble())
      ensures old(Quiet()) && !ok && ProfileIs(old(world), uuid, expected) ==> Trouble() < old(Trouble())
      ensures ok ==> script == Later(old(script), 3)
      ensures old(ServedFor(script, 3)) ==> Trouble() == old(Trouble())
    {
      hide Faults, Legitimate;
      LaterServed(script, 1, 2);
      LaterServed(script, 2, 1);
      LaterLater(script, 1, 1);
      ok, version := false, 0;
      var current := GetVersion(uuid);
      if current.None? || current.value == 0 {
        return;
      }
      version := current.value;
      var settings := GetSettings(uuid);
      if settings.None? || settings.value.pair != expected {
        return;
      }
      ok := Update2(uuid, Settings(desired, settings.value.rest), version);
    }

    method UpdateProfile(uuid: nat, expected: Pair, desired: Pair) returns (ok: bool)
      modifies this`world, this`script, this`writes
      ensures writes == old(writes) || (|writes| == |old(writes)| + 1 && old(writes) <= writes
        && ProfileWrite(writes[|old(writes)|], uuid, expected, desired))
      ensures ok ==> writes != old(writes)
      ensures old(Quiet()) ==> Quiet()
      ensures old(Quiet()) && (ok || world != old(world)) ==> PairUpdated(old(world), world, uuid, expected, desired)
      ensures Trouble() <= old(Trouble())
      ensures old(Quiet()) && !ok && ProfileIs(old(world), uuid, expected) ==> Trouble() < old(Trouble())
      ensures ok ==> script == Later(old(script), 5)
      ensures old(ServedFor(script, 5)) ==> Trouble() == old(Trouble())
    {
      hide Faults, Legitimate;
      LaterServed(script, 3, 2);
      var version;
      ok, version := GuardedWrite(uuid, expected, desired);
      if ok {
        ok := VerifyUpdate(uuid, version, desired);
      }
    }

    /** The version moved and the pair is the desired one. */
    method VerifyUpdate(uuid: nat, version: nat, desired: Pair) returns (ok: bool)
      modifies this`world, this`script
      ensures old(Quiet()) ==> Quiet() && world == old(world)
      ensures ok ==> script == Later(old(script), 2)
      ensures Trouble() <= old(Trouble())
      ensures old(ServedFor(script, 2)) ==> Trouble() == old(Trouble())
      ensures old(Quiet()) && !ok && ProfileIs(world, uuid, desired) && world.profiles[uuid].version > version ==>
        Trouble() < old(Trouble())
      ensures old(Quiet()) && ok ==> uuid in world.profiles && world.profiles[uuid].settings.pair == desired
    {
      hide Faults, Legitimate;
      LaterServed(script, 1, 1);
      LaterLater(script, 1, 0);
      var verifiedVersion := GetVersion(uuid);
      if verifiedVersion.None? || verifiedVersion.value == 0 || verifiedVersion.value == version {
        return false;
      }
      var verified := GetSettings(uuid);
      ok := verified.Some? && verified.value.pair == desired;
    }

    method GetApplied(path: nat) returns (r: Option<Applied>)
      modifies this`world, this`script, this`lastActive
      ensures script == Later(old(script), 1) && (r.Some? ==> path in world.applied && r.value == world.applied[path])
      ensures r.Some? ==> lastActive == Some((path, r.value.uuid, r.value.settings.pair))
      ensures old(Quiet()) ==> Quiet() && world == old(world)
      ensures Trouble() <= old(Trouble()) && (r.None? && path in world.applied ==> Trouble() < old(Trouble()))
      ensures TurnAt(old(script), 0) == Served() ==> Trouble() == old(Trouble())
    {
      hide Faults;
      var t := Serve();
      if !t.ok || path !in world.applied {
        return None;
      }
      r := Some(world.applied[path]);
      lastActive := Some((path, r.value.uuid, r.value.settings.pair));
    }

    /** The device refuses settings based on an older version. */
    method Reapply(path: nat, settings: Settings, version: nat) returns (ok: bool)
      requires path in world.applied && world.applied[path].version >= version
      modifies this`world, this`script, this`writes
      ensures writes == old(writes)
           || writes == old(writes) + [ToDevice(path, old(world).applied[path].uuid, old(world).applied[path].settings, settings)]
      ensures ok ==> writes != old(writes)
      ensures old(Quiet()) ==> Quiet() && world == (if writes == old(writes) then old(world) else Reapplied(old(world), path, settings))
      ensures Trouble() <= old(Trouble())
      ensures old(Quiet()) && !ok && old(world).applied[path].version == version ==> Trouble() < old(Trouble())
    {
      hide Faults;
      var t := Serve();
      ok := t.ok && t.effect && world.applied[path].version == version;
      if t.effect && world.applied[path].version == version {
        writes := writes + [ToDevice(path, world.applied[path].uuid, world.applied[path].settings, settings)];
        world := Reapplied(world, path, settings);
      }
    }

    method ApplyActive(path: nat, uuid: nat, expected: Pair, desired: Pair) returns (ok: bool)
      modifies this`world, this`script, this`writes, this`lastActive
      ensures writes == old(writes) || (|writes| == |old(writes)| + 1 && old(writes) <= writes
        && DeviceWrite(writes[|old(writes)|], path, uuid, expected, desired))
      ensures ok ==> lastActive == Some((path, uuid, desired))
      ensures old(Quiet()) ==> Quiet() && (if ok then PairApplied(old(world), world, path, uuid, expected, desired)
                                           else world == old(world) || PairApplied(old(world), world, path, uuid, expected, desired))
      ensures Trouble() <= old(Trouble())
      ensures old(Quiet()) && !ok && AppliedAs(old(world), path, uuid, expected) ==> Trouble() < old(Trouble())
    {
      hide Faults;
      var current := GetApplied(path);
      if current.None? || current.value.uuid != uuid || current.value.settings.pair != expected {
        return false;
      }
      ok := Reapply(path, Settings(desired, current.value.settings.rest), current.value.version);
      if !ok {
        return;
      }
      var verified := GetApplied(path);
      ok := verified.Some? && verified.value.uuid == uuid && verified.value.settings.pair == desired;
    }
  }

  predicate Present(world: World, device: nat) {
    exists l <- world.links :: l.device == device
  }

  predicate ProfileIs(world: World, uuid: nat, pair: Pair) {
    uuid in world.profiles && world.profiles[uuid].version > 0 && world.profiles[uuid].settings.pair == pair
  }

  predicate AppliedAs(world: World, path: nat, uuid: nat, pair: Pair) {
    path in world.applied && world.applied[path].uuid == uuid && world.applied[path].settings.pair == pair
  }

  function Updated(world: World, uuid: nat, settings: Settings): World
    requires uuid in world.profiles
  {
    World(world.links, world.profiles[uuid := Profile(settings, world.profiles[uuid].version + 1)], world.applied, world.routes)
  }

  function Reapplied(world: World, path: nat, settings: Settings): World
    requires path in world.applied
  {
    World(world.links, world.profiles,
          world.applied[path := Applied(world.applied[path].uuid, settings, world.applied[path].version + 1)], world.routes)
  }

  /** Only the pair of one profile was replaced, the expected one by the desired one. */
  ghost predicate PairUpdated(before: World, after: World, uuid: nat, expected: Pair, desired: Pair) {
    && uuid in before.profiles && before.profiles[uuid].settings.pair == expected
    && after == Updated(before, uuid, Settings(desired, before.profiles[uuid].settings.rest))
  }

  /** The same for the connection applied to one device. */
  ghost predicate PairApplied(before: World, after: World, path: nat, uuid: nat, expected: Pair, desired: Pair) {
    && AppliedAs(before, path, uuid, expected)
    && after == Reapplied(before, path, Settings(desired, before.applied[path].settings.rest))
  }

  /** A write that replaced exactly the expected pair and kept every other setting. */
  ghost predicate ProfileWrite(w: Write, uuid: nat, expected: Pair, desired: Pair) {
    w.ToProfile? && w.uuid == uuid && w.before.pair == expected && w.after == Settings(desired, w.before.rest)
  }

  ghost predicate DeviceWrite(w: Write, path: nat, uuid: nat, expected: Pair, desired: Pair) {
    && w.ToDevice? && w.path == path && w.uuid == uuid
    && w.before.pair == expected && w.after == Settings(desired, w.before.rest)
  }
}

/** Switching local-only tethering on or off as a compare-and-set with rollback. */
module LocalOnlyTether {
  import opened Protocol
  import opened NetworkManagers

  datatype Target = Target(device: nat, uuid: nat, path: nat, profile: Pair, applied: Pair, routes: Pair)

  /** `Refused`: nothing was written. `RolledBack`: the message says that the
      original settings were restored or verified unchanged. `LeftApplied`: a plain
      error after the persistent update, without any rollback. */
  datatype Outcome = Done(target: Target) | Refused | RolledBack | Incomplete | LeftApplied

  predicate SettingsAll(target: Target, value: bool) {
    target.profile == Pair(value, value) && target.applied == Pair(value, value)
  }

  predicate PolicyEnabled(target: Target) {
    SettingsAll(target, true) && target.routes == Pair(false, false)
  }

  predicate SameSelection(a: Target, b: Target) {
    a.device == b.device && a.uuid == b.uuid && a.path == b.path
  }

  /** The write replaces one captured pair, on the captured profile or device, by
      the requested one and keeps all other settings. */
  ghost predicate Forward(w: Write, target: Target, requested: Pair) {
    && w.uuid == target.uuid && w.before.rest == w.after.rest && w.after.pair == requested
    && match w
       case ToProfile(_, before, _) => before.pair == target.profile
       case ToDevice(path, _, before, _) => path == target.path && before.pair == target.applied
  }

  /** The opposite: the requested pair, and nothing else, gives way to the captured one. */
  ghost predicate Back(w: Write, target: Target, requested: Pair) {
    && w.uuid == target.uuid && w.before.rest == w.after.rest && w.before.pair == requested
    && match w
       case ToProfile(_, _, after) => after.pair == target.profile
       case ToDevice(path, _, _, after) => path == target.path && after.pair == target.applied
  }

  ghost predicate AllForward(before: seq<Write>, after: seq<Write>, target: Target, requested: Pair) {
    before <= after && forall i :: |before| <= i < |after| ==> Forward(after[i], target, requested)
  }

  ghost predicate AllBack(before: seq<Write>, after: seq<Write>, target: Target, requested: Pair) {
    before <= after && forall i :: |before| <= i < |after| ==> Back(after[i], target, requested)
  }

  /** The writes of an update, and after them those of its rollback. */
  ghost predicate Directed(before: seq<Write>, after: seq<Write>, target: Target, requested: Pair) {
    exists turned: seq<Write> :: AllForward(before, turned, target, requested) && AllBack(turned, after, target, requested)
  }

  lemma NotTurned(before: seq<Write>, after: seq<Write>, target: Target, requested: Pair)
    ensures AllForward(before, after, target, requested) ==> Directed(before, after, target, requested)
    ensures AllBack(before, after, target, requested) ==> Directed(before, after, target, requested)
  {
    assert AllBack(after, after, target, requested) && AllForward(before, before, target, requested);
  }

  function ActiveLinks(links: seq<Link>): (r: seq<Link>)
    ensures forall i :: 0 <= i < |r| ==> r[i].connection.Some? && r[i] in links
  {
    if links == [] then []
    else
      var last := links[|links| - 1];
      ActiveLinks(links[..|links| - 1]) + (if last.connection.Some? then [last] else [])
  }

  /** Exactly one active tether with a readable profile, connection and routes. */
  predicate Ready(world: World) {
    var active := ActiveLinks(world.links);
    && |active| == 1
    && var (uuid, path) := active[0].connection.value;
    && uuid in world.profiles && world.profiles[uuid].version > 0
    && path in world.applied && world.applied[path].uuid == uuid
    && active[0].device in world.routes
  }

  /** The target is the active tether, and its routes are the captured ones. */
  ghost predicate Selected(world: World, target: Target) {
    && ActiveLinks(world.links) == [Link(target.device, Some((target.uuid, target.path)))]
    && target.device in world.routes && world.routes[target.device] == target.routes
  }

  ghost predicate ProfileHas(world: World, target: Target, pair: Pair) {
    ProfileIs(world, target.uuid, pair)
  }

  ghost predicate DeviceHas(world: World, target: Target, pair: Pair) {
    AppliedAs(world, target.path, target.uuid, pair)
  }

  ghost predicate PairIs(world: World, target: Target, pair: Pair) {
    target.uuid in world.profiles && world.profiles[target.uuid].settings.pair == pair
  }

  /** The four settings are those of the world. */
  ghost predicate Actual(world: World, target: Target) {
    && Selected(world, target) && DeviceHas(world, target, target.applied)
    && PairIs(world, target, target.profile)
  }

  lemma SelectedPresent(world: World, target: Target)
    requires Selected(world, target)
    ensures Present(world, target.device)
  {
    assert ActiveLinks(world.links)[0] in world.links;
  }

  /** Both pairs are the given ones on the selected target. */
  ghost predicate Stands(world: World, target: Target, profile: Pair, applied: Pair) {
    Selected(world, target) && ProfileHas(world, target, profile) && DeviceHas(world, target, applied)
  }

  lemma StandsReady(world: World, target: Target, profile: Pair, applied: Pair)
    requires Stands(world, target, profile, applied)
    ensures Ready(world) && Present(world, target.device)
  {
    SelectedPresent(world, target);
  }

  /** Exactly one active tether device, read field by field. */
  method ResolveTarget(m: Manager) returns (r: Option<Target>)
    modifies m`world, m`script, m`lastRead, m`lastActive, m`checks
    ensures old(m.Quiet()) ==> m.Quiet() && m.world == old(m.world)
    ensures r.Some? ==> m.lastRead == Some((r.value.uuid, r.value.profile))
    ensures r.Some? ==> m.lastActive == Some((r.value.path, r.value.uuid, r.value.applied))
    ensures r.Some? && old(m.Quiet()) ==> Actual(m.world, r.value)
    ensures m.Trouble() <= old(m.Trouble())
    ensures old(m.Quiet()) && Ready(m.world) && r.None? ==> m.Trouble() < old(m.Trouble())
    ensures old(m.checks) <= m.checks
    ensures old(m.Quiet()) && |m.world.links| == 1 && r.Some? ==> m.script == Later(old(m.script), 7)
    ensures old(m.Quiet() && ServedFor(m.script, 7)) && |m.world.links| == 1 ==> m.Trouble() == old(m.Trouble())
  {
    hide Faults;
    LaterServed(m.script, 2, 5);
    r := None;
    var active := FindActive(m);
    if active.None? || |active.value| != 1 {
      return;
    }
    r := ReadTarget(m, active.value[0]);
  }

  method FindActive(m: Manager) returns (active: Option<seq<Link>>)
    modifies m`world, m`script, m`checks
    ensures old(m.Quiet()) ==> m.Quiet() && m.world == old(m.world)
    ensures active.Some? && old(m.Quiet()) ==> active.value == ActiveLinks(m.world.links)
    ensures active.Some? ==> forall i :: 0 <= i < |active.value| ==> active.value[i].connection.Some?
    ensures m.Trouble() <= old(m.Trouble()) && (old(m.Quiet()) && active.None? ==> m.Trouble() < old(m.Trouble()))
    ensures old(m.checks) <= m.checks
    ensures old(m.Quiet()) && |m.world.links| == 1 && active.Some? && active.value != [] ==> m.script == Later(old(m.script), 2)
    ensures old(m.Quiet() && ServedFor(m.script, 2)) && |m.world.links| == 1 ==> m.Trouble() == old(m.Trouble())
  {
    hide Faults;
    LaterLater(m.script, 1, 0);
    LaterLater(m.script, 1, 1);
    active := None;
    var links := m.Devices();
    if links.None? {
      return;
    }
    var found: seq<Link> := [];
    for i := 0 to |links.value|
      invariant old(m.Quiet()) ==> m.Quiet() && m.world == old(m.world)
      invariant found == ActiveLinks(links.value[..i]) && m.Trouble() <= old(m.Trouble()) && old(m.checks) <= m.checks
      invariant |links.value| == 1 && found == [] && i == 0 ==> m.script == Later(old(m.script), 1)
      invariant |links.value| == 1 && found != [] ==> i == 1 && m.script == Later(old(m.script), 2)
      invariant old(m.Quiet() && ServedFor(m.script, 2)) && |links.value| == 1 ==> m.Trouble() == old(m.Trouble())
    {
      assert links.value[..i + 1][..i] == links.value[..i] && links.value[i] in links.value;
      if links.value[i].connection.Some? {
        var same := m.VerifyDevice(links.value[i].device);
        if same != Some(true) {
          return;
        }
        found := found + [links.value[i]];
      }
    }
    assert links.value[..|links.value|] == links.value;
    active := Some(found);
  }

  lemma ActivePresent(world: World, link: Link)
    requires ActiveLinks(world.links) == [link]
    ensures Present(world, link.device)
  {
    assert ActiveLinks(world.links)[0] in world.links;
  }

  /** The default routes of a device that is there before and after. */
  method ReadRoutes(m: Manager, device: nat) returns (routes: Option<Pair>)
    modifies m`world, m`script, m`checks
    ensures old(m.checks) <= m.checks
    ensures old(m.Quiet()) ==> m.Quiet() && m.world == old(m.world)
    ensures old(m.Quiet()) && routes.Some? ==> device in m.world.routes && routes.value == m.world.routes[device]
    ensures m.Trouble() <= old(m.Trouble())
    ensures old(m.Quiet()) && routes.None? && Present(m.world, device) && device in m.world.routes ==> m.Trouble() < old(m.Trouble())
    ensures routes.Some? ==> m.script == Later(old(m.script), 3)
    ensures old(ServedFor(m.script, 3)) ==> m.Trouble() == old(m.Trouble())
  {
    hide Faults;
    LaterServed(m.script, 1, 2);
    LaterServed(m.script, 2, 1);
    LaterLater(m.script, 1, 1);
    LaterLater(m.script, 1, 0);
    routes := None;
    var verified := m.VerifyDevice(device);
    if verified != Some(true) {
      return;
    }
    var read := m.DefaultRoutes(device);
    if read.None? {
      return;
    }
    verified := m.VerifyDevice(device);
    if verified == Some(true) {
      routes := read;
    }
  }

  method ReadTarget(m: Manager, link: Link) returns (r: Option<Target>)
    requires link.connection.Some?
    modifies m`world, m`script, m`lastRead, m`lastActive, m`checks
    ensures old(m.Quiet()) ==> m.Quiet() && m.world == old(m.world)
    ensures r.Some? ==> link == Link(r.value.device, Some((r.value.uuid, r.value.path)))
    ensures r.Some? ==> m.lastRead == Some((r.value.uuid, r.value.profile))
    ensures r.Some? ==> m.lastActive == Some((r.value.path, r.value.uuid, r.value.applied))
    ensures r.Some? && old(m.Quiet()) && ActiveLinks(m.world.links) == [link] ==> Actual(m.world, r.value)
    ensures m.Trouble() <= old(m.Trouble())
    ensures old(m.Quiet()) && Ready(m.world) && ActiveLinks(m.world.links) == [link] && r.None? ==> m.Trouble() < old(m.Trouble())
    ensures old(m.checks) <= m.checks
    ensures r.Some? ==> m.script == Later(old(m.script), 5)
    ensures old(ServedFor(m.script, 5)) ==> m.Trouble() == old(m.Trouble())
  {
    hide Faults, ActiveLinks;
    LaterLater(m.script, 1, 1);
    LaterServed(m.script, 2, 3);
    LaterLater(m.script, 1, 0);
    if ActiveLinks(m.world.links) == [link] {
      ActivePresent(m.world, link);
    }
    r := None;
    var device, uuid, path := link.device, link.connection.value.0, link.connection.value.1;
    var profile := m.ReadProfile(uuid);
    if profile.None? {
      return;
    }
    var applied := m.ReadActive(path);
    if applied.None? || applied.value.0 != uuid {
      return;
    }
    var routes := ReadRoutes(m, device);
    if routes.None? {
      return;
    }
    r := Some(Target(device, uuid, path, profile.value, applied.value.1, routes.value));
  }

  // ---------------------------------------------------------------- applying

  method ApplyFrom(m: Manager, target: Target, expected: Pair, desired: Pair) returns (ok: bool)
    modifies m`world, m`script, m`writes, m`lastActive, m`checks
    ensures m.writes == old(m.writes) || (|m.writes| == |old(m.writes)| + 1 && old(m.writes) <= m.writes
      && DeviceWrite(m.writes[|old(m.writes)|], target.path, target.uuid, expected, desired))
    ensures old(m.checks) <= m.checks && (ok ==> m.lastActive == Some((target.path, target.uuid, desired)))
    ensures old(m.Quiet()) ==> m.Quiet() && Switched(old(m.world), m.world, target, expected, desired)
    ensures old(m.Quiet()) && ok ==> DeviceHas(m.world, target, desired)
    ensures m.Trouble() <= old(m.Trouble())
    ensures old(m.Quiet()) && !ok && DeviceHas(old(m.world), target, expected) && Present(old(m.world), target.device) ==>
      m.Trouble() < old(m.Trouble())
  {
    hide Faults;
    ok := m.ApplyActive(target.path, target.uuid, expected, desired);
    if ok {
      var same := m.VerifyDevice(target.device);
      ok := same == Some(true);
    }
  }

  /** At most the pair applied to the target's device was switched. */
  ghost predicate Switched(before: World, after: World, target: Target, expected: Pair, desired: Pair) {
    after == before || PairApplied(before, after, target.path, target.uuid, expected, desired)
  }

  /** Leaves a value alone that is neither the captured nor the requested one. */
  method ApplyProfile(m: Manager, target: Target, requested: Pair) returns (ok: bool)
    modifies m`world, m`script, m`writes, m`lastActive, m`checks
    ensures AllForward(old(m.writes), m.writes, target, requested)
    ensures old(m.checks) <= m.checks && (ok ==> m.lastActive == Some((target.path, target.uuid, requested)))
    ensures old(m.Quiet()) ==> m.Quiet() && Switched(old(m.world), m.world, target, target.applied, requested)
    ensures old(m.Quiet()) && ok ==> DeviceHas(m.world, target, requested)
    ensures m.Trouble() <= old(m.Trouble())
    ensures old(m.Quiet()) && !ok && DeviceHas(old(m.world), target, target.applied) && Present(old(m.world), target.device) ==>
      m.Trouble() < old(m.Trouble())
  {
    hide Faults;
    var current := m.ReadActive(target.path);
    if current.None? || current.value.0 != target.uuid {
      return false;
    }
    if current.value.1 != target.applied && current.value.1 != requested {
      return false;
    }
    if current.value.1 == requested {
      var same := m.VerifyDevice(target.device);
      return same == Some(true);
    }
    ok := ApplyFrom(m, target, current.value.1, requested);
  }

  // ---------------------------------------------------------------- rolling back

  /** A check since then reported the device gone. */
  ghost predicate SeenGone(before: seq<(nat, bool)>, after: seq<(nat, bool)>, device: nat) {
    exists i :: |before| <= i < |after| && after[i] == (device, false)
  }

  /** The device's pair was last read as the captured one, or the device is gone. */
  ghost predicate ActiveRestored(m: Manager, before: seq<(nat, bool)>, target: Target)
    reads m
  {
    m.lastActive == Some((target.path, target.uuid, target.applied)) || SeenGone(before, m.checks, target.device)
  }

  /** The pairs are still ours or the captured ones, on a device with its captured routes or gone. */
  ghost predicate Restorable(world: World, target: Target, owned: Pair) {
    PersistentRestorable(world, target, owned) && ActiveRestorable(world, target, owned) && RoutesAsCaptured(world, target)
  }

  ghost predicate PersistentRestorable(world: World, target: Target, owned: Pair) {
    ProfileHas(world, target, target.profile) || ProfileHas(world, target, owned)
  }

  ghost predicate ActiveRestorable(world: World, target: Target, owned: Pair) {
    Present(world, target.device) ==> DeviceHas(world, target, target.applied) || DeviceHas(world, target, owned)
  }

  ghost predicate RoutesAsCaptured(world: World, target: Target) {
    Present(world, target.device) ==> target.device in world.routes && world.routes[target.device] == target.routes
  }

  /** Both pairs are the captured ones, or the device is gone. */
  ghost predicate Original(world: World, target: Target) {
    && PairIs(world, target, target.profile)
    && (Present(world, target.device) ==> DeviceHas(world, target, target.applied))
  }

  method RollbackPersistent(m: Manager, target: Target, owned: Pair) returns (ok: bool)
    modifies m`world, m`script, m`writes, m`lastRead
    ensures AllBack(old(m.writes), m.writes, target, owned)
    ensures ok ==> m.lastRead == Some((target.uuid, target.profile))
    ensures old(m.Quiet()) ==> m.Quiet()
    ensures old(m.Quiet()) && m.world != old(m.world) ==> PairUpdated(old(m.world), m.world, target.uuid, owned, target.profile)
    ensures old(m.Quiet()) && ok ==> PairIs(m.world, target, target.profile)
    ensures m.Trouble() <= old(m.Trouble())
    ensures old(m.Quiet()) && !ok && PersistentRestorable(old(m.world), target, owned) ==> m.Trouble() < old(m.Trouble())
  {
    hide Faults;
    var current := m.ReadProfile(target.uuid);
    if current.None? {
      return false;
    }
    if current.value == target.profile {
      return true;
    }
    if current.value != owned {
      return false;
    }
    ok := m.UpdateProfile(target.uuid, owned, target.profile);
    if ok {
      current := m.ReadProfile(target.uuid);
      ok := current == Some(target.profile);
    }
  }

  method RollbackActive(m: Manager, target: Target, owned: Pair) returns (ok: bool)
    modifies m`world, m`script, m`writes, m`lastActive, m`checks
    ensures AllBack(old(m.writes), m.writes, target, owned)
    ensures old(m.checks) <= m.checks && (ok ==> ActiveRestored(m, old(m.checks), target))
    ensures old(m.Quiet()) ==> m.Quiet() && Switched(old(m.world), m.world, target, owned, target.applied)
    ensures old(m.Quiet()) && ok && Present(m.world, target.device) ==> DeviceHas(m.world, target, target.applied)
    ensures m.Trouble() <= old(m.Trouble())
    ensures old(m.Quiet()) && !ok && ActiveRestorable(old(m.world), target, owned) ==> m.Trouble() < old(m.Trouble())
  {
    hide Faults;
    var present := m.VerifyDevice(target.device);
    if present.None? {
      return false;
    }
    if !present.value {
      assert m.checks[|old(m.checks)|] == (target.device, false);
      return true;
    }
    var current := m.ReadActive(target.path);
    if current.None? || current.value.0 != target.uuid {
      return false;
    }
    if current.value.1 == target.applied {
      return true;
    }
    if current.value.1 != owned {
      return false;
    }
    ok := ApplyFrom(m, target, owned, target.applied);
  }

  method RoutesUnchanged(m: Manager, target: Target) returns (ok: bool)
    modifies m`world, m`script, m`checks
    ensures old(m.checks) <= m.checks
    ensures old(m.Quiet()) ==> m.Quiet() && m.world == old(m.world)
    ensures old(m.Quiet()) && ok ==> RoutesAsCaptured(m.world, target)
    ensures m.Trouble() <= old(m.Trouble())
    ensures old(m.Quiet()) && !ok && RoutesAsCaptured(m.world, target) ==> m.Trouble() < old(m.Trouble())
  {
    hide Faults;
    var present := m.VerifyDevice(target.device);
    if present.None? {
      return false;
    }
    if !present.value {
      return true;
    }
    var routes := m.DefaultRoutes(target.device);
    ok := routes == Some(target.routes);
  }

  /** Undoes what is still ours. A clean rollback has read back both pairs (or
      lost the device). If nobody else edits, and both pairs are ours or the
      captured ones, only a call that is not served can keep it from being clean. */
  method Rollback(m: Manager, target: Target, owned: Pair) returns (r: Outcome)
    modifies m`world, m`script, m`writes, m`lastRead, m`lastActive, m`checks
    ensures AllBack(old(m.writes), m.writes, target, owned)
    ensures r.RolledBack? || r.Incomplete?
    ensures r.RolledBack? ==> m.lastRead == Some((target.uuid, target.profile)) && ActiveRestored(m, old(m.checks), target)
    ensures old(m.checks) <= m.checks && m.Trouble() <= old(m.Trouble())
    ensures old(m.Quiet()) ==> m.Quiet()
    ensures old(m.Quiet()) && r.RolledBack? ==> Original(m.world, target) && RoutesAsCaptured(m.world, target)
    ensures old(m.Quiet() && Restorable(m.world, target, owned)) && r.Incomplete? ==> m.Trouble() < old(m.Trouble())
  {
    hide Faults;
    var persistent := RollbackPersistent(m, target, owned);
    var active := RollbackActive(m, target, owned);
    var routes := RoutesUnchanged(m, target);
    r := if persistent && active && routes then RolledBack else Incomplete;
  }

  /** After a failed write: confirms that nothing changed, or rolls back. */
  method ConfirmOrRollback(m: Manager, target: Target, owned: Pair) returns (r: Outcome)
    modifies m`world, m`script, m`writes, m`lastRead, m`lastActive, m`checks
    ensures AllBack(old(m.writes), m.writes, target, owned)
    ensures r.RolledBack? || r.Incomplete?
    ensures r.RolledBack? ==> m.lastRead == Some((target.uuid, target.profile)) && ActiveRestored(m, old(m.checks), target)
    ensures old(m.checks) <= m.checks && m.Trouble() <= old(m.Trouble())
    ensures old(m.Quiet()) ==> m.Quiet()
    ensures old(m.Quiet()) && r.RolledBack? ==> Original(m.world, target)
    ensures old(m.Quiet() && Restorable(m.world, target, owned)) && r.Incomplete? ==> m.Trouble() < old(m.Trouble())
  {
    hide Faults;
    var current := ResolveTarget(m);
    if current.Some? && SameSelection(current.value, target)
       && current.value.profile == target.profile && current.value.applied == target.applied {
      return RolledBack;
    }
    r := Rollback(m, target, owned);
  }

  // ---------------------------------------------------------------- the update

  /** The persistent re-read was served and gave the requested pair, and the device
      check after it was not served. */
  ghost predicate CheckUnserved(world: World, script: seq<Turn>, uuid: nat, requested: Pair) {
    var reread := Edited(world, TurnAt(script, 0));
    && TurnAt(script, 0).ok && uuid in reread.profiles && reread.profiles[uuid].settings.pair == requested
    && !TurnAt(script, 1).ok
  }

  /** Verifies the persistent update, applies it to the device and verifies all
      four settings. Every failure rolls back, but for exactly one. */
  method FinishUpdate(m: Manager, target: Target, enabled: bool) returns (r: Outcome)
    modifies m
    ensures Directed(old(m.writes), m.writes, target, Pair(enabled, enabled))
    ensures r.Done? || r.LeftApplied? ==> AllForward(old(m.writes), m.writes, target, Pair(enabled, enabled))
    ensures !r.Refused?
    ensures r.LeftApplied? <==> CheckUnserved(old(m.world), old(m.script), target.uuid, Pair(enabled, enabled))
    ensures r.LeftApplied? ==> m.lastRead == Some((target.uuid, Pair(enabled, enabled))) && m.writes == old(m.writes)
    ensures r.Done? ==> SameSelection(r.target, target) && SettingsAll(r.target, enabled) && LastReadAs(m, r.target)
    ensures r.RolledBack? ==> m.lastRead == Some((target.uuid, target.profile)) && ActiveRestored(m, old(m.checks), target)
    ensures m.Trouble() <= old(m.Trouble())
    ensures old(m.Quiet()) && r.Done? ==> Actual(m.world, r.target)
    ensures old(m.Quiet()) && r.RolledBack? ==> Original(m.world, target)
    ensures old(m.Quiet()) && r.LeftApplied? ==> m.world == old(m.world) && PairIs(m.world, target, Pair(enabled, enabled))
    ensures old(m.Quiet() && Stands(m.world, target, Pair(enabled, enabled), target.applied)) ==>
      Tolerated(r, m.Trouble(), old(m.Trouble()))
    ensures old(m.Quiet() && Restorable(m.world, target, Pair(enabled, enabled))) && r.Incomplete? ==> m.Trouble() < old(m.Trouble())
  {
    hide Faults, Original;
    var requested := Pair(enabled, enabled);
    LaterLater(m.script, 1, 0);
    var profile := m.ReadProfile(target.uuid);
    if profile != Some(requested) {
      r := Rollback(m, target, requested);
      return;
    }
    if Stands(m.world, target, requested, target.applied) {
      StandsReady(m.world, target, requested, target.applied);
    }
    var same := m.VerifyDevice(target.device);
    if same.None? {
      NotTurned(m.writes, m.writes, target, requested);
      return LeftApplied;
    }
    if !same.value {
      r := Rollback(m, target, requested);
      return;
    }
    r := ApplyAndVerify(m, target, enabled);
  }

  /** What was read last is the given target. */
  ghost predicate LastReadAs(m: Manager, target: Target)
    reads m
  {
    m.lastRead == Some((target.uuid, target.profile)) && m.lastActive == Some((target.path, target.uuid, target.applied))
  }

  /** If nobody else edits, one call that is not served never leaves more than the
      unchecked update: it takes a second one to make a rollback incomplete. */
  ghost predicate Tolerated(r: Outcome, trouble: nat, before: nat) {
    && (!r.Done? ==> trouble < before)
    && (r.Incomplete? ==> trouble + 2 <= before)
  }

  method ApplyAndVerify(m: Manager, target: Target, enabled: bool) returns (r: Outcome)
    modifies m
    ensures Directed(old(m.writes), m.writes, target, Pair(enabled, enabled))
    ensures r.Done? || r.LeftApplied? ==> AllForward(old(m.writes), m.writes, target, Pair(enabled, enabled))
    ensures r.Done? || r.RolledBack? || r.Incomplete?
    ensures r.Done? ==> SameSelection(r.target, target) && SettingsAll(r.target, enabled) && LastReadAs(m, r.target)
    ensures r.RolledBack? ==> m.lastRead == Some((target.uuid, target.profile)) && ActiveRestored(m, old(m.checks), target)
    ensures m.Trouble() <= old(m.Trouble())
    ensures old(m.Quiet()) && r.Done? ==> Actual(m.world, r.target)
    ensures old(m.Quiet()) && r.RolledBack? ==> Original(m.world, target)
    ensures old(m.Quiet() && Stands(m.world, target, Pair(enabled, enabled), target.applied)) ==>
      Tolerated(r, m.Trouble(), old(m.Trouble()))
    ensures old(m.Quiet() && Restorable(m.world, target, Pair(enabled, enabled))) && r.Incomplete? ==> m.Trouble() < old(m.Trouble())
  {
    hide Faults, Original;
    var requested := Pair(enabled, enabled);
    if Stands(m.world, target, requested, target.applied) {
      StandsReady(m.world, target, requested, target.applied);
    }
    var applied := ApplyProfile(m, target, requested);
    if !applied {
      r := Rollback(m, target, requested);
      return;
    }
    if Stands(m.world, target, requested, requested) {
      StandsReady(m.world, target, requested, requested);
    }
    var current := ResolveTarget(m);
    if current.Some? && SameSelection(current.value, target) && SettingsAll(current.value, enabled) {
      return Done(current.value);
    }
    r := Rollback(m, target, requested);
  }

  /** The calls before the persistent update: seven that capture, and two checks. */
  lemma UpdateCalls(script: seq<Turn>)
    ensures Later(Later(Later(script, 7), 1), 1) == Later(script, 9)
    ensures TurnAt(Later(script, 9), 5) == TurnAt(script, 14) && TurnAt(Later(script, 9), 6) == TurnAt(script, 15)
    ensures ServedFor(script, 14) ==> ServedFor(script, 7) && ServedFor(Later(script, 9), 5)
    ensures ServedFor(script, 14) ==>
      TurnAt(Later(script, 7), 0) == Served() && TurnAt(Later(Later(script, 7), 1), 0) == Served()
  {
    hide Later;
    LaterLater(script, 7, 1);
    LaterLater(script, 8, 1);
    LaterServed(script, 9, 5);
    LaterLater(script, 9, 5);
    LaterLater(script, 9, 6);
    LaterLater(script, 7, 0);
    LaterLater(script, 8, 0);
  }

  /** The whole update. */
  method SetPolicy(m: Manager, enabled: bool) returns (r: Outcome, target: Option<Target>)
    modifies m
    ensures r.Refused? ==> m.writes == old(m.writes)
    ensures target.None? ==> r.Refused?
    ensures target.Some? ==> Directed(old(m.writes), m.writes, target.value, Pair(enabled, enabled))
    ensures r.Done? || r.LeftApplied? ==> AllForward(old(m.writes), m.writes, target.value, Pair(enabled, enabled))
    ensures r.LeftApplied? ==> m.lastRead == Some((target.value.uuid, Pair(enabled, enabled)))
    ensures r.Done? ==> SameSelection(r.target, target.value) && SettingsAll(r.target, enabled) && LastReadAs(m, r.target)
    ensures r.RolledBack? ==> m.lastRead == Some((target.value.uuid, target.value.profile))
                              && ActiveRestored(m, old(m.checks), target.value)
    ensures r.Done? ==> r.target.profile == Pair(enabled, enabled) && r.target.applied == Pair(enabled, enabled)
    ensures r.Done? ==>
      r.target.device == target.value.device && r.target.uuid == target.value.uuid && r.target.path == target.value.path
    ensures target.Some? && target.value.profile == target.value.applied == Pair(enabled, enabled) ==>
      !enabled || target.value.routes == Pair(false, false) ==> r == Done(target.value) && m.writes == old(m.writes)
    ensures r.Done? && enabled && m.writes == old(m.writes) ==> r.target.routes == Pair(false, false)
    ensures old(m.Quiet()) && target.Some? ==> Actual(old(m.world), target.value)
    ensures old(m.Quiet()) && r.LeftApplied? ==> PairIs(m.world, target.value, Pair(enabled, enabled))
    ensures old(m.Quiet()) && r.Done? ==> Actual(m.world, r.target)
    ensures old(m.Quiet()) && r.Refused? ==> m.world == old(m.world)
    ensures old(m.Quiet()) && r.RolledBack? ==> Original(m.world, target.value)
    ensures old(m.Quiet() && Ready(m.world)) ==> Tolerated(r, m.Trouble(), old(m.Trouble()))
    ensures old(m.Quiet() && Ready(m.world) && |m.world.links| == 1 && ServedFor(m.script, 14)) ==> target.Some?
    ensures old(m.Quiet() && Ready(m.world) && |m.world.links| == 1 && ServedFor(m.script, 14)) && !SettingsAll(target.value, enabled) ==>
      (r.LeftApplied? <==> TurnAt(old(m.script), 14).ok && !TurnAt(old(m.script), 15).ok)
  {
    hide Faults, Original, Later, TurnAt, ServedFor, ActiveLinks, Directed, AllBack;
    UpdateCalls(m.script);
    var requested := Pair(enabled, enabled);
    r := Refused;
    target := ResolveTarget(m);
    if target.None? {
      return;
    }
    NotTurned(m.writes, m.writes, target.value, requested);
    if SettingsAll(target.value, enabled) && (!enabled || PolicyEnabled(target.value)) {
      r := Done(target.value);
      return;
    }
    if Selected(m.world, target.value) {
      SelectedPresent(m.world, target.value);
    }
    var same := m.VerifyDevice(target.value.device);
    if same != Some(true) {
      return;
    }
    var profile := m.ReadProfile(target.value.uuid);
    if profile != Some(target.value.profile) {
      return;
    }
    r := WriteProfile(m, target.value, enabled);
  }

  method WriteProfile(m: Manager, target: Target, enabled: bool) returns (r: Outcome)
    modifies m
    ensures Directed(old(m.writes), m.writes, target, Pair(enabled, enabled))
    ensures r.Done? || r.LeftApplied? ==> AllForward(old(m.writes), m.writes, target, Pair(enabled, enabled))
    ensures !r.Refused?
    ensures r.Done? || r.LeftApplied? ==> old(m.writes) < m.writes
    ensures r.LeftApplied? ==> m.lastRead == Some((target.uuid, Pair(enabled, enabled)))
    ensures r.Done? ==> SameSelection(r.target, target) && SettingsAll(r.target, enabled) && LastReadAs(m, r.target)
    ensures r.RolledBack? ==> m.lastRead == Some((target.uuid, target.profile)) && ActiveRestored(m, old(m.checks), target)
    ensures old(m.Quiet()) && r.LeftApplied? ==> PairIs(m.world, target, Pair(enabled, enabled))
    ensures old(m.Quiet()) && r.Done? ==> Actual(m.world, r.target)
    ensures old(m.Quiet()) && r.RolledBack? ==> Original(m.world, target)
    ensures old(m.Quiet() && Stands(m.world, target, target.profile, target.applied)) ==>
      Tolerated(r, m.Trouble(), old(m.Trouble()))
    ensures old(m.Quiet() && Stands(m.world, target, target.profile, target.applied) && ServedFor(m.script, 5)) ==>
      (r.LeftApplied? <==> TurnAt(old(m.script), 5).ok && !TurnAt(old(m.script), 6).ok)
  {
    hide Faults, Original;
    LaterLater(m.script, 5, 0);
    LaterLater(m.script, 5, 1);
    if Stands(m.world, target, target.profile, target.applied) {
      StandsReady(m.world, target, target.profile, target.applied);
    }
    var modified := m.UpdateProfile(target.uuid, target.profile, Pair(enabled, enabled));
    if !modified {
      r := ConfirmOrRollback(m, target, Pair(enabled, enabled));
    } else {
      r := FinishUpdate(m, target, enabled);
    }
  }

  /** A concrete run: the device check right after the persistent write is not
      served, and the profile keeps the requested pair. */
  method LeftAppliedRun() returns (r: Outcome, kept: Pair)
    ensures r.LeftApplied? && kept == Pair(true, true)
  {
    hide Faults;
    var off := Settings(Pair(false, false), 0);
    var world := World([Link(1, Some((2, 3)))], map[2 := Profile(off, 1)], map[3 := Applied(2, off, 1)], map[1 := Pair(true, true)]);
    var script := seq(15, _ => Served()) + [Turn(None, false, false)];
    OneActive(world.links[0]);
    var m := new Manager(world, script);
    var target;
    r, target := SetPolicy(m, true);
    assert target.value.uuid == 2 && !SettingsAll(target.value, true);
    kept := m.world.profiles[2].settings.pair;
  }

  lemma OneActive(link: Link)
    requires link.connection.Some?
    ensures ActiveLinks([link]) == [link]
  {
    assert [link][..0] == [];
  }
}
