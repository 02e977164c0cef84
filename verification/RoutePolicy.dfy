/** Capturing, applying, restoring and recovering the local-only route policy. */
module RoutePolicies {
  import opened Protocol
  import opened RouteJournal

  datatype Outcome = NothingToDo | AllRestored | SomeDeferred | OwnerRunning | Stopped

  /** Whether a captured gateway is still good; `routed` are the gateways of the current routes. */
  function ClassifyGateway(gateway: nat, routed: seq<nat>, configured: set<nat>): Gateway {
    if gateway == 0 || gateway in routed || gateway in configured then Available
    else if configured == {} then Unconfirmed
    else Stale
  }

  function ShouldRestoreFlag(current: bool, original: bool): bool { current && !original }

  /** Nobody else edits the interface, and the invariant holds. */
  ghost predicate Safe(os: Os, flag0: bool, table0: seq<Route>)
    reads os
  {
    os.Quiet() && os.Covered(flag0, table0)
  }

  /** A journaled transaction is under way. */
  ghost predicate Journaled(os: Os, policy: Policy, flag0: bool, table0: seq<Route>)
    reads os
  {
    Safe(os, flag0, table0) && Describes(policy, flag0, table0) && os.journal != map[]
  }

  // ---------------------------------------------------------------- applying

  /** The deleted route was the first of a tail of the captured list, and exactly
      that tail had just been listed. */
  ghost predicate Orderly(d: Deletion, policy: Policy) {
    exists j :: 0 <= j < |policy.routes| && d.route == policy.routes[j] && multiset(d.listed) == multiset(policy.routes[j..])
  }

  ghost predicate AllOrderly(before: seq<Deletion>, after: seq<Deletion>, policy: Policy) {
    before <= after && forall i :: |before| <= i < |after| ==> Orderly(after[i], policy)
  }

  /** Deletes only journaled routes, each only while exactly the captured rest was
      listed, and only while the journal stays in place. */
  method ApplySnapshot(os: Os, policy: Policy, ghost flag0: bool, ghost table0: seq<Route>) returns (ok: bool)
    modifies os`answers, os`flag, os`table, os`listed, os`deleted
    ensures AllOrderly(old(os.deleted), os.deleted, policy)
    ensures old(Journaled(os, policy, flag0, table0)) ==> Journaled(os, policy, flag0, table0)
    ensures ok ==> os.table == []
    ensures ok && old(os.Quiet()) ==> os.flag
    ensures old(os.Quiet() && multiset(os.table) != multiset(policy.routes)) ==>
      !ok && os.table == old(os.table) && os.flag == old(os.flag) && os.deleted == old(os.deleted)
    ensures old(os.answers == [] && multiset(os.table) == multiset(policy.routes)) ==> ok && os.answers == []
  {
    var current := os.ReadRoutes();
    if current.None? {
      return false;
    }
    var same := SameMultiset(current.value, policy.routes);
    if !same {
      return false;
    }
    var flag := os.ReadFlag();
    if flag.None? {
      return false;
    }
    if !flag.value {
      var disabled := os.SetFlag(true);
      if !disabled {
        return false;
      }
    }
    ok := DeleteCaptured(os, policy, flag0, table0);
    if ok {
      ok := VerifyEnforced(os, policy, flag0, table0);
    }
  }

  /** Deletes the first of the routes that must still be there, if exactly those are. */
  method DeleteNext(os: Os, rest: seq<Route>, ghost policy: Policy, ghost flag0: bool, ghost table0: seq<Route>) returns (ok: bool)
    requires rest != []
    modifies os`answers, os`flag, os`table, os`listed, os`deleted
    ensures os.deleted == old(os.deleted)
         || (os.deleted == old(os.deleted) + [Deletion(rest[0], os.listed)] && multiset(os.listed) == multiset(rest))
    ensures old(os.Quiet() && multiset(os.table) != multiset(rest)) ==> !ok && os.table == old(os.table)
    ensures old(Journaled(os, policy, flag0, table0)) ==> Journaled(os, policy, flag0, table0)
    ensures old(os.Quiet()) ==> os.Quiet() && os.flag == old(os.flag)
    ensures old(os.answers == [] && multiset(os.table) == multiset(rest)) ==>
      ok && os.answers == [] && multiset(os.table) == multiset(rest[1..])
  {
    hide Without;
    var current := os.ReadRoutes();
    if current.None? {
      return false;
    }
    var same := SameMultiset(current.value, rest);
    if !same {
      return false;
    }
    if multiset(os.table) == multiset(rest) {
      DeleteFirst(os.table, rest);
    }
    ok := os.DeleteRoute(rest[0]);
  }

  method DeleteCaptured(os: Os, policy: Policy, ghost flag0: bool, ghost table0: seq<Route>) returns (ok: bool)
    modifies os`answers, os`flag, os`table, os`listed, os`deleted
    ensures AllOrderly(old(os.deleted), os.deleted, policy)
    ensures old(Journaled(os, policy, flag0, table0)) ==> Journaled(os, policy, flag0, table0)
    ensures old(os.Quiet()) ==> os.Quiet() && os.flag == old(os.flag)
    ensures old(os.answers == [] && multiset(os.table) == multiset(policy.routes)) ==> ok && os.answers == [] && os.table == []
  {
    hide Journaled;
    for index := 0 to |policy.routes|
      invariant AllOrderly(old(os.deleted), os.deleted, policy)
      invariant old(Journaled(os, policy, flag0, table0)) ==> Journaled(os, policy, flag0, table0)
      invariant old(os.Quiet()) ==> os.Quiet() && os.flag == old(os.flag)
      invariant old(os.answers == [] && multiset(os.table) == multiset(policy.routes)) ==>
        os.answers == [] && multiset(os.table) == multiset(policy.routes[index..])
    {
      assert policy.routes[index..][1..] == policy.routes[index + 1..];
      ok := DeleteNext(os, policy.routes[index..], policy, flag0, table0);
      if !ok {
        return;
      }
    }
    ok := true;
    assert policy.routes[|policy.routes|..] == [];
  }

  method VerifyEnforced(os: Os, policy: Policy, ghost flag0: bool, ghost table0: seq<Route>) returns (ok: bool)
    modifies os`answers, os`flag, os`table, os`listed
    ensures old(Journaled(os, policy, flag0, table0)) ==> Journaled(os, policy, flag0, table0)
    ensures ok ==> os.table == []
    ensures ok && old(os.Quiet()) ==> os.flag
    ensures old(os.answers == [] && os.table == []) ==> ok && os.answers == []
  {
    ok := false;
    var flag := os.ReadFlag();
    if flag.None? {
      return;
    }
    if !flag.value {
      var disabled := os.SetFlag(true);
      if !disabled {
        return;
      }
    }
    flag := os.ReadFlag();
    if flag != Some(true) {
      return;
    }
    var unexpected := os.ReadRoutes();
    ok := unexpected == Some([]);
  }

  // ---------------------------------------------------------------- restoring

  /** Every original is routed again, or belongs to an outdated lease. */
  ghost predicate RoutesBack(os: Os, table0: seq<Route>)
    reads os
  {
    forall r <- table0 :: r in os.table || os.Outdated(r)
  }

  /** A route of somebody else is on the interface. */
  ghost predicate Foreign(os: Os, policy: Policy)
    reads os
  {
    !(multiset(Keys(os.table)) <= multiset(Keys(policy.routes)))
  }

  lemma {:induction false} KeyCount(routes: seq<Route>, k: nat)
    requires Unique(routes)
    ensures multiset(Keys(routes))[k] == if k in Keys(routes) then 1 else 0
  {
    if routes != [] {
      KeyCount(routes[1..], k);
      assert Keys(routes) == [routes[0].gateway] + Keys(routes[1..]);
    }
  }

  lemma KeysWithin(current: seq<Route>, original: seq<Route>)
    requires Unique(current) && Unique(original) && forall r <- current :: r in original
    ensures multiset(Keys(current)) <= multiset(Keys(original))
  {
    forall k ensures multiset(Keys(current))[k] <= multiset(Keys(original))[k] {
      KeyCount(current, k);
      KeyCount(original, k);
      if k in Keys(current) {
        var i :| 0 <= i < |current| && Keys(current)[i] == k;
        assert current[i] in original;
        var j :| 0 <= j < |original| && original[j] == current[i];
        assert Keys(original)[j] == k;
      }
    }
  }

  /** The reported places are exactly those of the originals whose key is gone. */
  lemma MissingMeans(current: seq<Route>, original: seq<Route>, missing: seq<nat>)
    requires Unique(original) && forall p <- missing :: p < |original|
    requires multiset(Keys(original)) == multiset(Keys(current)) + multiset(At(Keys(original), missing))
    ensures forall i :: 0 <= i < |original| ==> (original[i].gateway in Keys(current) <==> i !in missing)
  {
    var k := Keys(original);
    var gone := At(k, missing);
    forall i | 0 <= i < |original| ensures original[i].gateway in Keys(current) <==> i !in missing {
      KeyCount(original, k[i]);
      assert k[i] in multiset(k);
      if i in missing {
        var j :| 0 <= j < |missing| && missing[j] == i;
        assert gone[j] == k[i] && k[i] in multiset(gone);
      } else {
        forall j | 0 <= j < |gone| ensures gone[j] != k[i] {
          assert missing[j] in missing && missing[j] != i;
        }
        assert k[i] !in multiset(gone);
      }
    }
  }

  /** In a covered table a gateway stands for the original route with that gateway. */
  lemma KeyMeansRoute(table: seq<Route>, originals: seq<Route>, r: Route)
    requires Unique(originals) && (forall q <- table :: q in originals) && r in originals
    ensures r.gateway in Keys(table) <==> r in table
  {
    if r.gateway in Keys(table) {
      var i :| 0 <= i < |table| && table[i].gateway == r.gateway;
      assert table[i] in table;
      var j :| 0 <= j < |originals| && originals[j] == table[i];
      var k :| 0 <= k < |originals| && originals[k] == r;
    } else {
      forall i | 0 <= i < |table| ensures table[i] != r {
        assert Keys(table)[i] in Keys(table);
      }
    }
  }

  /** Recreates the missing routes one by one; `verify` lists the gateways to look for afterwards. */
  method RecreateMissing(os: Os, policy: Policy, missing: seq<nat>, routed: seq<nat>, ghost flag0: bool, ghost table0: seq<Route>)
    returns (ok: bool, verify: seq<nat>)
    requires forall p <- missing :: p < |policy.routes|
    modifies os`answers, os`flag, os`table, os`listed
    ensures old(os.Quiet()) ==> os.Quiet() && os.flag == old(os.flag) && forall r <- old(os.table) :: r in os.table
    ensures old(Journaled(os, policy, flag0, table0)) ==> Journaled(os, policy, flag0, table0)
    ensures old(os.Quiet()) ==> OnlyConfirmed(os, old(os.table), routed)
    ensures ok ==> forall p <- missing :: os.Outdated(policy.routes[p]) || policy.routes[p].gateway in verify
    ensures old(os.answers) == [] ==> os.answers == [] && forall k <- verify :: k in Keys(os.table)
    ensures old(os.answers) == [] ==>
      (ok <==> forall p <- missing :: !ClassifyGateway(policy.routes[p].gateway, routed, os.configured).Unconfirmed?)
  {
    hide Journaled;
    assert forall j :: 0 <= j < |missing| ==> missing[j] in missing;
    verify := [];
    for k := 0 to |missing|
      invariant old(os.Quiet()) ==> os.Quiet() && os.flag == old(os.flag) && forall r <- old(os.table) :: r in os.table
      invariant old(Journaled(os, policy, flag0, table0)) ==> Journaled(os, policy, flag0, table0)
      invariant old(os.Quiet()) ==> OnlyConfirmed(os, old(os.table), routed)
      invariant forall j :: 0 <= j < k ==>
        os.Outdated(policy.routes[missing[j]]) || policy.routes[missing[j]].gateway in verify
      invariant forall j :: 0 <= j < k ==>
        !ClassifyGateway(policy.routes[missing[j]].gateway, routed, os.configured).Unconfirmed?
      invariant old(os.answers) == [] ==> os.answers == [] && forall g <- verify :: g in Keys(os.table)
    {
      var route := policy.routes[missing[k]];
      match ClassifyGateway(route.gateway, routed, os.configured) {
        case Available =>
          var status := CreateOriginal(os, policy, missing[k], flag0, table0);
          if status.NotCreated? {
            return false, verify;
          }
          verify := verify + [route.gateway];
        case Stale =>
        case Unconfirmed =>
          return false, verify;
      }
    }
    ok := true;
  }

  /** Every route that came back is on-link, or its gateway was in use just before
      or is configured: a route of an outdated lease is not resurrected. */
  ghost predicate OnlyConfirmed(os: Os, before: seq<Route>, routed: seq<nat>)
    reads os
  {
    Confirmed(os.table, before, routed, os.configured)
  }

  ghost predicate Confirmed(table: seq<Route>, before: seq<Route>, routed: seq<nat>, configured: set<nat>) {
    forall r <- table :: r in before || r.gateway == 0 || r.gateway in routed || r.gateway in configured
  }

  lemma OnlyConfirmedIs(os: Os, before: seq<Route>, routed: seq<nat>)
    ensures OnlyConfirmed(os, before, routed) <==> Confirmed(os.table, before, routed, os.configured)
  {
  }

  lemma NothingRecreated(os: Os)
    ensures OnlyConfirmed(os, os.table, Keys(os.table))
  {
  }

  lemma ConfirmedTwice(os: Os, before: seq<Route>, between: seq<Route>)
    ensures Confirmed(between, before, Keys(before), os.configured) && OnlyConfirmed(os, between, Keys(between)) ==>
      OnlyConfirmed(os, before, Keys(before))
  {
    forall r | Confirmed(between, before, Keys(before), os.configured) && OnlyConfirmed(os, between, Keys(between)) && r in os.table && r !in before
      ensures r.gateway == 0 || r.gateway in Keys(before) || r.gateway in os.configured
    {
      if r !in between && r.gateway in Keys(between) {
        var i :| 0 <= i < |between| && between[i].gateway == r.gateway;
        assert between[i] in between;
        if between[i] in before {
          var j :| 0 <= j < |before| && before[j] == between[i];
          assert Keys(before)[j] == r.gateway;
        }
      }
    }
  }

  lemma Extended(table: seq<Route>, route: Route)
    requires route.gateway !in Keys(table)
    ensures Unique(table) ==> Unique(table + [route])
    ensures forall r :: r in table + [route] <==> r in table || r == route
  {
    forall i | 0 <= i < |table| ensures table[i].gateway != route.gateway {
      assert Keys(table)[i] in Keys(table);
    }
  }

  method CreateOriginal(os: Os, policy: Policy, index: nat, ghost flag0: bool, ghost table0: seq<Route>) returns (status: Creation)
    requires index < |policy.routes|
    modifies os`answers, os`flag, os`table, os`listed
    ensures old(os.Quiet()) ==> os.Quiet() && os.flag == old(os.flag) && old(os.table) <= os.table
    ensures old(Journaled(os, policy, flag0, table0)) ==> Journaled(os, policy, flag0, table0)
    ensures old(os.answers) == [] ==> os.answers == [] && !status.NotCreated?
    ensures old(os.answers) == [] ==>
      (forall g <- Keys(old(os.table)) :: g in Keys(os.table)) && policy.routes[index].gateway in Keys(os.table)
    ensures old(os.Quiet()) ==> forall r <- os.table :: r in old(os.table) || r == policy.routes[index]
  {
    var route := policy.routes[index];
    ghost var before := os.table;
    status := os.CreateRoute(route);
    assert route in policy.routes;
    assert os.table == before + [route] ==> Keys(os.table) == Keys(before) + [route.gateway];
    if route.gateway !in Keys(before) {
      Extended(before, route);
    }
  }

  lemma RestoredBack(os: Os, policy: Policy, flag0: bool, table0: seq<Route>, before: seq<Route>, missing: seq<nat>, verify: seq<nat>)
    requires Journaled(os, policy, flag0, table0) && forall p <- missing :: p < |policy.routes|
    requires forall r <- before :: r in os.table
    requires forall i :: 0 <= i < |policy.routes| ==> (policy.routes[i].gateway in Keys(before) <==> i !in missing)
    requires forall p <- missing :: os.Outdated(policy.routes[p]) || policy.routes[p].gateway in verify
    requires forall g <- verify :: g in Keys(os.table)
    ensures RoutesBack(os, table0)
  {
    forall r | r in table0 ensures r in os.table || os.Outdated(r) {
      assert r in policy.routes;
      var i :| 0 <= i < |policy.routes| && policy.routes[i] == r;
      KeyMeansRoute(os.table, table0, r);
      if i !in missing {
        KeyMeansRoute(before, table0, r);
      }
    }
  }

  /** Without a confirming gateway a deleted route cannot come back. */
  lemma HopelessMeans(os: Os, policy: Policy, flag0: bool, table0: seq<Route>, missing: seq<nat>)
    requires Journaled(os, policy, flag0, table0) && forall p <- missing :: p < |policy.routes|
    requires forall i :: 0 <= i < |policy.routes| ==> (policy.routes[i].gateway in Keys(os.table) <==> i !in missing)
    ensures (forall p <- missing :: !ClassifyGateway(policy.routes[p].gateway, Keys(os.table), os.configured).Unconfirmed?)
       <==> Recoverable(os, table0)
  {
    forall i | 0 <= i < |policy.routes| ensures policy.routes[i] in table0 && (policy.routes[i] in os.table <==> i !in missing) {
      assert policy.routes[i] in policy.routes;
      KeyMeansRoute(os.table, table0, policy.routes[i]);
    }
    if forall p <- missing :: !ClassifyGateway(policy.routes[p].gateway, Keys(os.table), os.configured).Unconfirmed? {
      forall r | r in table0 ensures r in os.table || !os.Hopeless(r) {
        assert r in policy.routes;
        var i :| 0 <= i < |policy.routes| && policy.routes[i] == r;
      }
    }
  }

  /** The places list exactly the originals that are not routed. */
  ghost predicate MissingAre(table: seq<Route>, policy: Policy, missing: seq<nat>) {
    && (forall p <- missing :: p < |policy.routes|)
    && forall i :: 0 <= i < |policy.routes| ==> (policy.routes[i].gateway in Keys(table) <==> i !in missing)
  }

  method RecreateAndVerify(os: Os, policy: Policy, missing: seq<nat>, routed: seq<nat>, ghost flag0: bool, ghost table0: seq<Route>)
    returns (ok: bool)
    requires forall p <- missing :: p < |policy.routes|
    modifies os`answers, os`flag, os`table, os`listed
    ensures old(os.Quiet()) ==> os.Quiet() && os.flag == old(os.flag) && OnlyConfirmed(os, old(os.table), routed)
    ensures old(Journaled(os, policy, flag0, table0)) ==> Journaled(os, policy, flag0, table0)
    ensures old(Journaled(os, policy, flag0, table0) && MissingAre(os.table, policy, missing)) && ok ==> RoutesBack(os, table0)
    ensures routed == Keys(old(os.table)) && MissingAre(old(os.table), policy, missing) ==>
      old(os.answers == [] && Journaled(os, policy, flag0, table0)) ==>
      os.answers == [] && (ok <==> old(Recoverable(os, table0)))
  {
    hide RoutesBack, Unique, Recoverable;
    ghost var safe, before := Journaled(os, policy, flag0, table0) && MissingAre(os.table, policy, missing), os.table;
    if safe {
      HopelessMeans(os, policy, flag0, table0, missing);
    }
    var verify;
    ok, verify := RecreateMissing(os, policy, missing, routed, flag0, table0);
    if ok && verify != [] {
      ok := VerifyKeys(os, verify);
    }
    if safe && ok {
      RestoredBack(os, policy, flag0, table0, before, missing, verify);
    }
  }

  lemma NotForeign(os: Os, policy: Policy, flag0: bool, table0: seq<Route>)
    requires Journaled(os, policy, flag0, table0)
    ensures Unique(policy.routes) && !Foreign(os, policy) && os.Quiet()
  {
    KeysWithin(os.table, policy.routes);
  }

  /** Recreates missing originals whose gateway is still good - none at all next
      to a foreign route. `routed` are the gateways seen just before. */
  method RestoreRoutes(os: Os, policy: Policy, routed: seq<nat>, ghost flag0: bool, ghost table0: seq<Route>) returns (ok: bool)
    modifies os`answers, os`flag, os`table, os`listed
    ensures old(os.Quiet()) ==> os.Quiet() && os.flag == old(os.flag) && OnlyConfirmed(os, old(os.table), routed)
    ensures old(Journaled(os, policy, flag0, table0)) ==> Journaled(os, policy, flag0, table0)
    ensures old(Journaled(os, policy, flag0, table0)) && ok ==> RoutesBack(os, table0)
    ensures old(os.Quiet() && Foreign(os, policy)) ==> os.table == old(os.table)
    ensures old(os.answers == [] && Journaled(os, policy, flag0, table0) && routed == Keys(os.table)) ==>
      os.answers == [] && (ok <==> old(Recoverable(os, table0)))
  {
    hide Journaled, RoutesBack, Unique, Recoverable;
    ghost var safe := Journaled(os, policy, flag0, table0);
    if safe {
      NotForeign(os, policy, flag0, table0);
    }
    var current := ListRoutes(os, policy, flag0, table0);
    if current.None? {
      return false;
    }
    var missing := MissingOriginalIndices(Keys(current.value), Keys(policy.routes));
    if missing.None? {
      return true;
    }
    if safe {
      MissingMeans(os.table, policy.routes, missing.value);
    }
    ok := RecreateAndVerify(os, policy, missing.value, routed, flag0, table0);
  }

  method ListRoutes(os: Os, policy: Policy, ghost flag0: bool, ghost table0: seq<Route>) returns (r: Option<seq<Route>>)
    modifies os`answers, os`flag, os`table, os`listed
    ensures r.Some? ==> r.value == os.table
    ensures old(os.Quiet()) ==> os.Quiet() && os.flag == old(os.flag) && os.table == old(os.table)
    ensures old(Journaled(os, policy, flag0, table0)) ==> Journaled(os, policy, flag0, table0)
    ensures old(os.Quiet()) ==> (Recoverable(os, table0) <==> old(Recoverable(os, table0)))
    ensures old(os.answers) == [] ==> os.answers == [] && r.Some?
  {
    r := os.ReadRoutes();
  }

  method VerifyKeys(os: Os, verify: seq<nat>) returns (ok: bool)
    modifies os`answers, os`flag, os`table, os`listed
    ensures old(os.Quiet()) ==> os.Quiet() && os.flag == old(os.flag) && os.table == old(os.table)
    ensures ok ==> forall g <- verify :: g in Keys(os.table)
    ensures old(os.answers) == [] ==> os.answers == [] && (ok <==> forall g <- verify :: g in Keys(os.table))
  {
    var restored := os.ReadRoutes();
    if restored.None? {
      return false;
    }
    ok := forall g <- verify :: g in Keys(restored.value);
  }

  /** Switches the flag off only if the policy switched it on. */
  method RestoreOwnedFlag(os: Os, original: bool) returns (ok: bool)
    modifies os`answers, os`flag, os`table, os`listed
    ensures old(os.Quiet()) ==> os.Quiet() && os.table == old(os.table) && (os.flag == old(os.flag) || (!original && !os.flag))
    ensures ok && old(os.Quiet()) ==> os.flag == (old(os.flag) && original)
    ensures old(os.answers) == [] ==> os.answers == [] && ok
  {
    ok := false;
    var current := os.ReadFlag();
    if current.None? {
      return;
    }
    if !ShouldRestoreFlag(current.value, original) {
      return true;
    }
    current := os.ReadFlag();
    if current.None? {
      return;
    }
    if !current.value {
      return true;
    }
    var cleared := os.SetFlag(false);
    if !cleared {
      return;
    }
    var verified := os.ReadFlag();
    ok := verified == Some(false);
  }

  /** Routes first, then the flag; the journal is untouched. */
  method RestoreOriginals(os: Os, policy: Policy, ghost flag0: bool, ghost table0: seq<Route>) returns (ok: bool)
    modifies os`answers, os`flag, os`table, os`listed
    ensures old(Journaled(os, policy, flag0, table0)) ==> Journaled(os, policy, flag0, table0)
    ensures old(Journaled(os, policy, flag0, table0)) && ok ==> os.Back(flag0, table0)
    ensures old(os.Quiet() && Foreign(os, policy)) ==> os.table == old(os.table)
    ensures old(os.answers == [] && Journaled(os, policy, flag0, table0)) ==>
      os.answers == [] && (ok <==> old(Recoverable(os, table0)))
    ensures old(os.Quiet()) ==> os.Quiet() && OnlyConfirmed(os, old(os.table), Keys(old(os.table)))
  {
    hide Unique;
    var routed := os.ReadRoutes();
    if routed.None? {
      return false;
    }
    ok := RestoreRoutes(os, policy, Keys(routed.value), flag0, table0);
    if ok {
      ok := RestoreOwnedFlag(os, policy.flag);
    }
  }

  /** A journal entry may go once the originals are back. */
  method Unjournal(os: Os, name: nat, ghost policy: Policy, ghost flag0: bool, ghost table0: seq<Route>) returns (ok: bool)
    modifies os`answers, os`flag, os`table, os`journal, os`listed
    ensures old(Journaled(os, policy, flag0, table0) && os.Back(flag0, table0)) ==>
      Safe(os, flag0, table0) && os.Back(flag0, table0) && os.table == old(os.table)
    ensures os.journal == old(os.journal) || os.journal == old(os.journal) - {name}
    ensures ok ==> os.journal == old(os.journal) - {name}
    ensures old(os.answers) == [] ==> os.answers == [] && ok
    ensures old(os.Quiet()) ==> os.Quiet() && os.table == old(os.table)
  {
    hide Unique;
    ok := os.RemoveJournal(name);
  }

  /** The rollback and the orderly end of a transaction. */
  method RestoreSnapshot(os: Os, name: nat, policy: Policy, ghost flag0: bool, ghost table0: seq<Route>) returns (ok: bool)
    modifies os`answers, os`flag, os`table, os`journal, os`listed
    ensures old(Journaled(os, policy, flag0, table0)) ==> Safe(os, flag0, table0)
    ensures old(Journaled(os, policy, flag0, table0)) && ok ==> os.Back(flag0, table0)
    ensures if ok then os.journal == old(os.journal) - {name} else os.journal == old(os.journal) || os.journal == old(os.journal) - {name}
    ensures old(os.answers == [] && Journaled(os, policy, flag0, table0)) ==> (ok <==> old(Recoverable(os, table0)))
    ensures old(os.answers == [] && Journaled(os, policy, flag0, table0)) && !ok ==> os.journal == old(os.journal)
    ensures old(os.Quiet()) ==> os.Quiet() && OnlyConfirmed(os, old(os.table), Keys(old(os.table)))
  {
    hide Unique, Describes;
    ok := RestoreOriginals(os, policy, flag0, table0);
    if ok {
      ok := Unjournal(os, name, policy, flag0, table0);
    }
  }

  // ---------------------------------------------------------------- recovery

  /** Recovers one journaled transaction of another run; `running` are the live
      owners, `present` whether the adapter and the family are there. */
  method RecoverPolicy(os: Os, policy: Policy, running: set<nat>, present: bool, ghost flag0: bool, ghost table0: seq<Route>)
    returns (r: Recovery)
    modifies os`answers, os`flag, os`table, os`listed
    ensures old(Journaled(os, policy, flag0, table0)) ==> Journaled(os, policy, flag0, table0)
    ensures old(Journaled(os, policy, flag0, table0)) && r.Restored? ==> os.Back(flag0, table0)
    ensures r.Deferred? || r.OwnerStillRunning? ==> unchanged(os)
    ensures r.Deferred? <==> !present
    ensures r.OwnerStillRunning? <==> present && policy.owner in running
    ensures old(os.answers == [] && Journaled(os, policy, flag0, table0)) && Reachable(policy, running, present) ==>
      os.answers == [] && (r.Restored? <==> old(Recoverable(os, table0)))
    ensures old(os.Quiet()) ==> os.Quiet() && OnlyConfirmed(os, old(os.table), Keys(old(os.table)))
  {
    if !present {
      return Deferred;
    }
    if policy.owner in running {
      return OwnerStillRunning;
    }
    var ok := RestoreOriginals(os, policy, flag0, table0);
    r := if ok then Restored else Failed;
  }

  /** Recovers one entry and removes it. */
  method RecoverEntry(os: Os, name: nat, policy: Policy, running: set<nat>, present: bool, ghost flag0: bool, ghost table0: seq<Route>)
    returns (r: Recovery)
    modifies os`answers, os`flag, os`table, os`journal, os`listed
    ensures old(Journaled(os, policy, flag0, table0)) ==> Safe(os, flag0, table0)
    ensures os.journal == old(os.journal) || os.journal == old(os.journal) - {name}
    ensures r.Restored? ==> os.journal == old(os.journal) - {name}
    ensures r.Deferred? || r.OwnerStillRunning? ==> os.journal == old(os.journal)
    ensures r.Deferred? <==> !present
    ensures r.OwnerStillRunning? <==> present && policy.owner in running
    ensures r.Deferred? || r.OwnerStillRunning? ==> !Reachable(policy, running, present)
    ensures old(os.answers == [] && Journaled(os, policy, flag0, table0)) && Reachable(policy, running, present) ==>
      (r.Restored? <==> old(Recoverable(os, table0))) && (r.Restored? ==> os.answers == [] && Recoverable(os, table0))
    ensures old(os.Quiet()) ==> os.Quiet() && OnlyConfirmed(os, old(os.table), Keys(old(os.table)))
  {
    hide Unique, Describes;
    r := RecoverPolicy(os, policy, running, present, flag0, table0);
    if r.Restored? {
      var removed := Unjournal(os, name, policy, flag0, table0);
      if !removed {
        r := Failed;
      }
    }
  }

  /** The adapter is there and the program that wrote the entry is not. */
  predicate Reachable(policy: Policy, running: set<nat>, present: bool) {
    present && policy.owner !in running
  }

  /** Every original is still routed or has a gateway that can be confirmed or replaced. */
  ghost predicate Recoverable(os: Os, table0: seq<Route>)
    reads os
  {
    forall r <- table0 :: r in os.table || !os.Hopeless(r)
  }

  /** Every entry can be taken over. */
  ghost predicate AllReachable(journal: map<nat, Policy>, running: set<nat>, present: bool) {
    forall name <- journal :: Reachable(journal[name], running, present)
  }

  /** Recovers every journaled transaction; stops at the first error. */
  method RecoverPolicies(os: Os, running: set<nat>, present: bool, ghost flag0: bool, ghost table0: seq<Route>)
    returns (outcome: Outcome)
    modifies os`answers, os`flag, os`table, os`journal, os`listed
    ensures old(Safe(os, flag0, table0)) ==> Safe(os, flag0, table0)
    ensures outcome.NothingToDo? <==> old(os.journal) == map[]
    ensures outcome.NothingToDo? ==> unchanged(os)
    ensures outcome.AllRestored? ==> os.journal == map[]
    ensures outcome.SomeDeferred? || outcome.OwnerRunning? ==> !AllReachable(old(os.journal), running, present)
    ensures old(os.answers == [] && Safe(os, flag0, table0) && os.journal != map[] && AllReachable(os.journal, running, present)) ==>
      (outcome.AllRestored? <==> old(Recoverable(os, table0))) && (outcome.AllRestored? ==> os.answers == [])
    ensures old(os.Quiet()) ==> os.Quiet() && OnlyConfirmed(os, old(os.table), Keys(old(os.table)))
  {
    hide Recoverable, Describes, Unique, OnlyConfirmed, Confirmed, Reachable, Keys;
    NothingRecreated(os);
    var entries := os.journal;
    var names := os.ListJournal();
    if names == [] {
      assert os.journal == map[];
      return NothingToDo;
    }
    assert names[0] in os.journal;
    ghost var eager := os.answers == [] && Safe(os, flag0, table0) && AllReachable(os.journal, running, present);
    ghost var good := Recoverable(os, table0);
    var pending, ownerRunning := false, false;
    for i := 0 to |names|
      invariant old(Safe(os, flag0, table0)) ==> Safe(os, flag0, table0)
      invariant old(os.Quiet()) ==> os.Quiet() && OnlyConfirmed(os, old(os.table), Keys(old(os.table)))
      invariant os.journal.Keys <= entries.Keys && forall name <- os.journal :: os.journal[name] == entries[name]
      invariant forall j :: i <= j < |names| ==> names[j] in os.journal
      invariant pending || ownerRunning || forall j :: 0 <= j < i ==> names[j] !in os.journal
      invariant eager ==> os.answers == [] && (good <==> Recoverable(os, table0)) && !pending && !ownerRunning
      invariant eager && !good ==> i == 0
      invariant pending || ownerRunning ==> !AllReachable(entries, running, present)
    {
      assert names[i] in entries && (AllReachable(entries, running, present) ==> Reachable(entries[names[i]], running, present));
      assert Safe(os, flag0, table0) ==> Journaled(os, os.journal[names[i]], flag0, table0);
      ghost var between := os.table;
      OnlyConfirmedIs(os, old(os.table), Keys(old(os.table)));
      var r := RecoverEntry(os, names[i], entries[names[i]], running, present, flag0, table0);
      ConfirmedTwice(os, old(os.table), between);
      match r {
        case Failed => return Stopped;
        case Deferred => pending := true;
        case OwnerStillRunning => ownerRunning := true;
        case Restored =>
      }
    }
    outcome := if ownerRunning then OwnerRunning else if pending then SomeDeferred else AllRestored;
    if outcome.AllRestored? {
      assert forall name <- os.journal :: name in entries && name in names;
      assert os.journal == map[];
    }
  }

  // ---------------------------------------------------------------- capturing

  /** The journal entry is written before anything is touched, and only after
      every older entry was recovered. */
  method CaptureFamily(os: Os, owner: nat, running: set<nat>, present: bool, ghost flag0: bool, ghost table0: seq<Route>)
    returns (policy: Option<Policy>)
    modifies os`answers, os`flag, os`table, os`journal, os`listed
    ensures old(Safe(os, flag0, table0)) ==>
      (if policy.Some? then Journaled(os, policy.value, os.flag, os.table) && os.Back(flag0, table0)
       else Safe(os, flag0, table0) || (Safe(os, os.flag, os.table) && os.Back(flag0, table0)))
    ensures policy.Some? ==> owner in os.journal && os.journal[owner] == policy.value
    ensures old(os.answers == [] && os.journal == map[]) ==>
      policy == Some(Policy(owner, os.flag, os.table)) && os.answers == [] && os.journal == map[owner := policy.value]
    ensures old(os.answers == [] && Safe(os, flag0, table0) && AllReachable(os.journal, running, present) && Recoverable(os, table0)) ==>
      policy.Some? && os.answers == [] && os.Back(flag0, table0)
    ensures old(os.journal) == map[] && old(os.Quiet()) ==> os.flag == old(os.flag) && os.table == old(os.table)
  {
    hide Unique;
    var outcome := RecoverPolicies(os, running, present, flag0, table0);
    if !outcome.NothingToDo? && !outcome.AllRestored? {
      return None;
    }
    var flag := os.ReadFlag();
    if flag.None? {
      return None;
    }
    var routes := os.ReadRoutes();
    if routes.None? {
      return None;
    }
    var captured := Policy(owner, flag.value, routes.value);
    var written := os.WriteJournal(owner, captured);
    policy := if written then Some(captured) else None;
  }

  // ---------------------------------------------------------------- several snapshots

  /** The snapshots whose restoration failed, in their order. */
  ghost function Unrestored<T>(items: seq<T>, restored: seq<bool>): seq<T>
    requires |restored| == |items|
  {
    if items == [] then []
    else if restored[0] then Unrestored(items[1..], restored[1..])
    else [items[0]] + Unrestored(items[1..], restored[1..])
  }

  lemma {:induction false} UnrestoredConcat<T>(a: seq<T>, ra: seq<bool>, b: seq<T>, rb: seq<bool>)
    requires |ra| == |a| && |rb| == |b|
    ensures Unrestored(a + b, ra + rb) == Unrestored(a, ra) + Unrestored(b, rb)
  {
    if a == [] {
      assert a + b == b && ra + rb == rb;
    } else {
      UnrestoredConcat(a[1..], ra[1..], b, rb);
      assert (a + b)[1..] == a[1..] + b && (ra + rb)[1..] == ra[1..] + rb;
    }
  }

  lemma UnrestoredOne<T>(item: T, restored: bool)
    ensures Unrestored([item], [restored]) == if restored then [] else [item]
  {
  }

  function Reversed<T>(s: seq<T>): (r: seq<T>)
    ensures |r| == |s|
  {
    if s == [] then [] else [s[|s| - 1]] + Reversed(s[..|s| - 1])
  }

  /** Undoes the newest first; what cannot be undone stays owned, in its old order. */
  method RollbackSuffix<T>(items: seq<T>, start: nat, restored: seq<bool>) returns (left: seq<T>, order: seq<T>)
    requires start <= |items| && |restored| == |items| - start
    ensures left == items[..start] + Unrestored(items[start..], restored)
    ensures |order| == |items| - start && forall i :: 0 <= i < |order| ==> order[i] == items[|items| - 1 - i]
  {
    var failed := [];
    order := [];
    var suffix := items[start..];
    var k := |suffix|;
    while k > 0
      invariant 0 <= k <= |suffix|
      invariant Reversed(failed) == Unrestored(suffix[k..], restored[k..])
      invariant |order| == |suffix| - k && forall i :: 0 <= i < |order| ==> order[i] == suffix[|suffix| - 1 - i]
    {
      k := k - 1;
      order := order + [suffix[k]];
      assert suffix[k..][1..] == suffix[k + 1..] && restored[k..][1..] == restored[k + 1..];
      if !restored[k] {
        assert (failed + [suffix[k]])[..|failed|] == failed;
        failed := failed + [suffix[k]];
      }
    }
    assert suffix[0..] == suffix && restored[0..] == restored;
    left := items[..start] + Reversed(failed);
  }

  // ---------------------------------------------------------------- whole runs

  /** One run of the program: protect the interface, then restore it. Undisturbed,
      it protects the interface and leaves it as it was, with nothing journaled -
      unless some route has a next hop that no configured gateway can confirm. */
  method RunOnce(os: Os, owner: nat, ghost flag0: bool, ghost table0: seq<Route>) returns (applied: bool, restored: bool)
    requires Safe(os, flag0, table0) && os.journal == map[] && os.flag == flag0 && os.table == table0
    modifies os
    ensures Safe(os, flag0, table0)
    ensures old(os.answers) == [] ==> applied && (restored <==> forall r <- table0 :: !os.Hopeless(r))
    ensures old(os.answers) == [] ==> if restored then os.journal == map[] && os.Back(flag0, table0) else os.journal.Keys == {owner}
  {
    hide Unique, Describes;
    applied, restored := false, false;
    var policy := CaptureFamily(os, owner, {}, true, flag0, table0);
    if policy.Some? {
      applied := ApplySnapshot(os, policy.value, flag0, table0);
      restored := RestoreSnapshot(os, owner, policy.value, flag0, table0);
    }
  }

  lemma StartsSafe(os: Os)
    requires os.Quiet() && Unique(os.table) && os.journal == map[]
    ensures Safe(os, os.flag, os.table)
  {
  }

  /** A new process: the interface and the journal are as they were. */
  method Restart(os: Os, answers: seq<Answer>, ghost flag0: bool, ghost table0: seq<Route>)
    requires Safe(os, flag0, table0) && forall a <- answers :: a.foreign.Nothing?
    modifies os`answers
    ensures Safe(os, flag0, table0) && os.answers == answers
  {
    os.answers := answers;
  }

  lemma SafeMeans(os: Os, flag0: bool, table0: seq<Route>)
    requires Safe(os, flag0, table0)
    ensures forall r <- os.table :: r in table0
    ensures os.journal == map[] ==> os.Back(flag0, table0)
    ensures (forall r <- table0 :: r in os.table) ==> multiset(os.table) == multiset(table0)
  {
    if forall r <- table0 :: r in os.table {
      forall r ensures multiset(os.table)[r] == multiset(table0)[r] {
        RouteCount(os.table, r);
        RouteCount(table0, r);
      }
    }
  }

  lemma RecoverableMeans(os: Os, table0: seq<Route>)
    ensures Recoverable(os, table0) <==> forall r <- table0 :: r in os.table || r.gateway == 0 || os.configured != {}
  {
  }

  lemma {:induction false} RouteCount(routes: seq<Route>, r: Route)
    requires Unique(routes)
    ensures multiset(routes)[r] == if r in routes then 1 else 0
  {
    if routes != [] {
      RouteCount(routes[1..], r);
      assert routes == [routes[0]] + routes[1..];
      assert forall q <- routes[1..] :: q.gateway != routes[0].gateway;
    }
  }

  /** Crash the program anywhere, crash any number of recoveries anywhere: with
      nobody else editing the interface, the next undisturbed recovery succeeds
      exactly if no deleted route lacks a confirming gateway. Then the flag and
      the routes are the original ones - short of an outdated lease - and a
      further recovery has nothing to do. */
  method CrashAndRecover(family: Family, flag: bool, table: seq<Route>, gateways: set<nat>, owner: nat,
                         run: seq<Answer>, recoveries: seq<seq<Answer>>)
    returns (interrupted: seq<Route>, journaled: bool, outcome: Outcome, flagAfter: bool, tableAfter: seq<Route>, again: Outcome)
    requires Unique(table) && (forall a <- run :: a.foreign.Nothing?)
    requires forall answers <- recoveries :: forall a <- answers :: a.foreign.Nothing?
    ensures outcome.NothingToDo? || outcome.AllRestored? || outcome.Stopped?
    ensures outcome.NothingToDo? <==> !journaled
    ensures journaled ==>
      (outcome.AllRestored? <==> forall r <- table :: r in interrupted || r.gateway == 0 || ConfiguredGateways(family, gateways) != {})
    ensures journaled && family.IPv6? ==>
      (outcome.AllRestored? <==> forall r <- table :: r in interrupted || r.gateway == 0)
    ensures run == [] && recoveries == [] ==>
      (journaled <==> exists r <- table :: r.gateway != 0 && ConfiguredGateways(family, gateways) == {})
    ensures !outcome.Stopped? ==> flagAfter == flag && again.NothingToDo?
    ensures !outcome.Stopped? ==> forall r <- tableAfter :: r in table
    ensures forall r <- tableAfter ::
      r in interrupted || r.gateway == 0 || r.gateway in Keys(interrupted) || r.gateway in ConfiguredGateways(family, gateways)
    ensures !outcome.Stopped? ==> forall r <- table ::
      r in tableAfter || (r.gateway != 0 && ConfiguredGateways(family, gateways) != {} && r.gateway !in ConfiguredGateways(family, gateways))
    ensures !outcome.Stopped? && (forall r <- table :: r.gateway == 0 || r.gateway in ConfiguredGateways(family, gateways)) ==>
      multiset(tableAfter) == multiset(table)
  {
    hide Safe, Unique, Recoverable;
    var os := new Os(family, flag, table, gateways, run);
    StartsSafe(os);
    var applied, restored := RunOnce(os, owner, flag, table);
    for i := 0 to |recoveries|
      invariant Safe(os, flag, table) && fresh(os) && os.configured == ConfiguredGateways(family, gateways)
      invariant run == [] && i == 0 ==> (os.journal == map[] <==> forall r <- table :: !os.Hopeless(r))
    {
      assert recoveries[i] in recoveries;
      Restart(os, recoveries[i], flag, table);
      var tried := RecoverPolicies(os, {}, true, flag, table);
    }
    Restart(os, [], flag, table);
    interrupted, journaled := os.table, os.journal != map[];
    assert AllReachable(os.journal, {}, true);
    assert Recoverable(os, table) <==> forall r <- table :: r in os.table || r.gateway == 0 || ConfiguredGateways(family, gateways) != {} by {
      RecoverableMeans(os, table);
    }
    outcome := RecoverPolicies(os, {}, true, flag, table);
    SafeMeans(os, flag, table);
    flagAfter, tableAfter := os.flag, os.table;
    again := RecoverPolicies(os, {}, true, flag, table);
  }

  lemma Empty(routes: seq<Route>)
    ensures (forall r :: r !in routes) ==> routes == []
  {
    if routes != [] {
      assert routes[0] in routes;
    }
  }

  /** A concrete IPv6 run: the only default route, through a real next hop, is
      captured and deleted, the program dies, and recovery cannot bring the route back. */
  method UnrecoverableRun() returns (outcome: Outcome, tableAfter: seq<Route>, journaled: bool)
    ensures outcome.Stopped? && tableAfter == [] && journaled
  {
    hide Recoverable, RoutesBack;
    var table := [Route(1, 0)];
    var os := new Os(IPv6, false, table, {1}, []);
    StartsSafe(os);
    var policy := CaptureFamily(os, 7, {}, true, false, table);
    var applied := ApplySnapshot(os, policy.value, false, table);
    RecoverableMeans(os, table);
    assert table[0] !in os.table && AllReachable(os.journal, {}, true);
    outcome := RecoverPolicies(os, {}, true, false, table);
    Empty(os.table);
    tableAfter, journaled := os.table, os.journal != map[];
  }
}
