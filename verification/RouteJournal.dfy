/** The local-only route policy of one Windows tether interface and family: a
    write-ahead journal around switching a flag and deleting default routes. */
module RouteJournal {
  import opened Protocol

  /** A default route of the interface: its next hop (0 when unspecified) is its
      key, `detail` stands for metric, lifetimes and the other attributes. */
  datatype Route = Route(gateway: nat, detail: nat)

  /** A journal entry: who changed the interface, and what it looked like before. */
  datatype Policy = Policy(owner: nat, flag: bool, routes: seq<Route>)

  /** What somebody else may do to the interface just before a call is served. */
  datatype Edit = Nothing | Others(flag: bool, table: seq<Route>)

  /** How a call is served: whether it takes effect and what it reports. A process
      that died is one whose later calls neither take effect nor succeed. */
  datatype Answer = Answer(effect: bool, ok: bool, foreign: Edit)

  datatype Creation = Created | AlreadyThere | NotCreated

  datatype Gateway = Available | Stale | Unconfirmed

  datatype Family = IPv4 | IPv6

  /** The configured gateways are read for IPv4 only. */
  function ConfiguredGateways(family: Family, gateways: set<nat>): set<nat> {
    if family.IPv4? then gateways else {}
  }

  /** A route this program deleted, and the routes it had listed last. */
  datatype Deletion = Deletion(route: Route, listed: seq<Route>)

  datatype Recovery = Restored | Deferred | OwnerStillRunning | Failed

  function Keys(routes: seq<Route>): (r: seq<nat>)
    ensures |r| == |routes|
  {
    seq(|routes|, i requires 0 <= i < |routes| => routes[i].gateway)
  }

  function Without<T(==)>(s: seq<T>, x: T): seq<T> {
    if s == [] then [] else if s[0] == x then s[1..] else [s[0]] + Without(s[1..], x)
  }

  /** Windows keeps one default route per next hop. */
  ghost predicate Unique(routes: seq<Route>) {
    forall i, j :: 0 <= i < j < |routes| ==> routes[i].gateway != routes[j].gateway
  }

  lemma UniqueRest(s: seq<Route>)
    requires Unique(s) && s != []
    ensures Unique(s[1..]) && forall r <- s[1..] :: r.gateway != s[0].gateway
  {
  }

  lemma UniqueFront(first: Route, rest: seq<Route>)
    requires Unique(rest) && forall r <- rest :: r.gateway != first.gateway
    ensures Unique([first] + rest)
  {
    var t := [first] + rest;
    forall i, j | 0 <= i < j < |t| ensures t[i].gateway != t[j].gateway {
      assert t[j] == rest[j - 1] && rest[j - 1] in rest;
    }
  }

  lemma {:induction false} WithoutOne(s: seq<Route>, x: Route)
    requires Unique(s)
    ensures Unique(Without(s, x)) && forall r :: r in Without(s, x) <==> r in s && r != x
  {
    hide Unique;
    if s != [] {
      assert s == [s[0]] + s[1..];
      UniqueRest(s);
      if s[0] != x {
        WithoutOne(s[1..], x);
        UniqueFront(s[0], Without(s[1..], x));
      }
    }
  }

  // ---------------------------------------------------------------- the interface

  class Os {
    /** Default routes are disabled on the interface. */
    var flag: bool
    var table: seq<Route>
    var journal: map<nat, Policy>
    /** The gateways DHCP or the user configured. */
    const configured: set<nat>
    /** How the next calls are served; after them, as asked. */
    var answers: seq<Answer>
    /** The routes listed last, and the routes this program deleted. */
    ghost var listed: seq<Route>
    ghost var deleted: seq<Deletion>

    constructor (family: Family, flag: bool, table: seq<Route>, gateways: set<nat>, answers: seq<Answer>)
      ensures this.flag == flag && this.table == table && journal == map[] && deleted == []
      ensures configured == ConfiguredGateways(family, gateways) && this.answers == answers
    {
      this.flag, this.table, this.journal := flag, table, map[];
      this.configured, this.answers := ConfiguredGateways(family, gateways), answers;
      listed, deleted := [], [];
    }

    /** Nobody else edits the interface. */
    ghost predicate Quiet()
      reads this
    {
      forall a <- answers :: a.foreign.Nothing?
    }

    method Serve() returns (a: Answer)
      modifies this`answers, this`flag, this`table
      ensures old(Quiet()) ==> Quiet() && flag == old(flag) && table == old(table)
      ensures old(answers) == [] ==> answers == [] && a.ok && a.effect
    {
      if answers == [] {
        return Answer(true, true, Nothing);
      }
      a := answers[0];
      answers := answers[1..];
      if a.foreign.Others? {
        flag, table := a.foreign.flag, a.foreign.table;
      }
    }

    method ReadFlag() returns (r: Option<bool>)
      modifies this`answers, this`flag, this`table
      ensures old(Quiet()) ==> Quiet() && flag == old(flag) && table == old(table)
      ensures r.Some? ==> r.value == flag
      ensures old(answers) == [] ==> answers == [] && r.Some?
    {
      var a := Serve();
      r := if a.ok then Some(flag) else None;
    }

    method ReadRoutes() returns (r: Option<seq<Route>>)
      modifies this`answers, this`flag, this`table, this`listed
      ensures old(Quiet()) ==> Quiet() && flag == old(flag) && table == old(table)
      ensures r.Some? ==> r.value == table == listed
      ensures old(answers) == [] ==> answers == [] && r.Some?
    {
      var a := Serve();
      r := if a.ok then Some(table) else None;
      listed := if a.ok then table else listed;
    }

    method SetFlag(value: bool) returns (ok: bool)
      modifies this`answers, this`flag, this`table
      ensures old(Quiet()) ==> Quiet() && table == old(table) && (flag == old(flag) || flag == value)
      ensures old(answers) == [] ==> answers == [] && ok && flag == value
    {
      var a := Serve();
      if a.effect {
        flag := value;
      }
      ok := a.ok;
    }

    method DeleteRoute(route: Route) returns (ok: bool)
      modifies this`answers, this`flag, this`table, this`deleted
      ensures deleted == old(deleted) || deleted == old(deleted) + [Deletion(route, listed)]
      ensures old(Quiet()) ==> Quiet() && flag == old(flag) && (forall r <- table :: r in old(table))
      ensures old(Quiet() && Unique(table)) ==> Unique(table)
      ensures old(answers) == [] ==> answers == [] && ok == (route in old(table)) && table == Without(old(table), route)
    {
      var a := Serve();
      ok := a.ok && route in table;
      if a.effect && route in table {
        deleted := deleted + [Deletion(route, listed)];
      }
      if a.effect {
        if route !in table {
          WithoutNone(table, route);
        }
        if Unique(table) {
          WithoutOne(table, route);
        }
        WithoutWithin(table, route);
        table := Without(table, route);
      }
    }

    method CreateRoute(route: Route) returns (status: Creation)
      modifies this`answers, this`flag, this`table
      ensures old(Quiet()) ==> Quiet() && flag == old(flag)
      ensures old(Quiet()) ==>
        table == old(table) || (route.gateway !in Keys(old(table)) && table == old(table) + [route])
      ensures old(answers) == [] ==> answers == [] && !status.NotCreated?
      ensures old(answers) == [] ==>
        table == if route.gateway in Keys(old(table)) then old(table) else old(table) + [route]
    {
      var a := Serve();
      var there := route.gateway in Keys(table);
      if a.effect && !there {
        table := table + [route];
      }
      status := if !a.ok then NotCreated else if there then AlreadyThere else Created;
    }

    method WriteJournal(name: nat, policy: Policy) returns (ok: bool)
      modifies this`answers, this`flag, this`table, this`journal
      ensures old(Quiet()) ==> Quiet() && flag == old(flag) && table == old(table)
      ensures journal == old(journal) || (name !in old(journal) && journal == old(journal)[name := policy])
      ensures ok ==> name in journal && journal[name] == policy
      ensures old(answers) == [] ==> answers == [] && (ok <==> name !in old(journal) || old(journal)[name] == policy)
    {
      var a := Serve();
      if name in journal {
        return a.ok && journal[name] == policy;
      }
      if a.effect {
        journal := journal[name := policy];
      }
      ok := a.ok && a.effect;
    }

    /** The names under which anything is journaled, in some order. */
    method ListJournal() returns (names: seq<nat>)
      ensures forall name :: name in names <==> name in journal
      ensures forall i, j :: 0 <= i < j < |names| ==> names[i] != names[j]
    {
      var rest := journal.Keys;
      names := [];
      while rest != {}
        invariant rest <= journal.Keys
        invariant forall i, j :: 0 <= i < j < |names| ==> names[i] != names[j]
        invariant forall name :: name in names <==> name in journal && name !in rest
      {
        var name :| name in rest;
        names := names + [name];
        rest := rest - {name};
      }
    }

    method RemoveJournal(name: nat) returns (ok: bool)
      modifies this`answers, this`flag, this`table, this`journal
      ensures old(Quiet()) ==> Quiet() && flag == old(flag) && table == old(table)
      ensures journal == old(journal) || journal == old(journal) - {name}
      ensures ok ==> journal == old(journal) - {name}
      ensures old(answers) == [] ==> answers == [] && ok
    {
      var a := Serve();
      if a.effect {
        journal := journal - {name};
      }
      ok := a.ok && a.effect;
    }

    // -------------------------------------------------------------- the invariant

    /** A route of a lease that another configured gateway has replaced. */
    predicate Outdated(route: Route) {
      route.gateway != 0 && configured != {} && route.gateway !in configured
    }

    /** No configured gateway can confirm the route once it is gone. */
    predicate Hopeless(route: Route) {
      route.gateway != 0 && configured == {}
    }

    /** Between any two calls of a program that alone changes the interface, whose
        originals are `flag0` and `table0`: only originals are routed, and either
        the journal holds the originals, or they are back - except for routes of
        an outdated lease. */
    ghost predicate Covered(flag0: bool, table0: seq<Route>)
      reads this
    {
      && Unique(table0) && Unique(table)
      && (forall r <- table :: r in table0)
      && (flag0 ==> flag)
      && (forall name <- journal :: Describes(journal[name], flag0, table0))
      && (journal == map[] ==> Back(flag0, table0))
    }

    ghost predicate Back(flag0: bool, table0: seq<Route>)
      reads this
    {
      flag == flag0 && forall r <- table0 :: r in table || Outdated(r)
    }
  }

  ghost predicate Describes(policy: Policy, flag0: bool, table0: seq<Route>) {
    policy.flag == flag0 && Unique(policy.routes) && forall r :: r in policy.routes <==> r in table0
  }

  lemma {:induction false} WithoutWithin(s: seq<Route>, x: Route)
    ensures forall r <- Without(s, x) :: r in s
  {
    if s != [] && s[0] != x {
      WithoutWithin(s[1..], x);
    }
  }

  lemma {:induction false} WithoutCount(s: seq<Route>, x: Route)
    ensures multiset(Without(s, x)) == multiset(s) - multiset{x}
  {
    if s != [] {
      assert s == [s[0]] + s[1..];
      if s[0] != x {
        WithoutCount(s[1..], x);
      }
    }
  }

  /** Deleting the first of exactly the expected routes leaves exactly the others. */
  lemma DeleteFirst(table: seq<Route>, rest: seq<Route>)
    requires rest != [] && multiset(table) == multiset(rest)
    ensures rest[0] in table && multiset(Without(table, rest[0])) == multiset(rest[1..])
  {
    assert rest == [rest[0]] + rest[1..];
    assert rest[0] in multiset(table);
    WithoutCount(table, rest[0]);
  }

  lemma {:induction false} WithoutNone(s: seq<Route>, x: Route)
    requires x !in s
    ensures Without(s, x) == s
  {
    if s != [] {
      WithoutNone(s[1..], x);
    }
  }

  // ---------------------------------------------------------------- matching lists

  /** The originals that are still unmatched. */
  ghost function Left<T>(original: seq<T>, unmatched: seq<bool>): multiset<T>
    requires |unmatched| == |original|
  {
    if original == [] then multiset{}
    else
      var last := |original| - 1;
      Left(original[..last], unmatched[..last]) + (if unmatched[last] then multiset{original[last]} else multiset{})
  }

  lemma {:induction false} LeftAll<T>(original: seq<T>, unmatched: seq<bool>)
    requires |unmatched| == |original| && forall i :: 0 <= i < |unmatched| ==> unmatched[i]
    ensures Left(original, unmatched) == multiset(original)
  {
    if original != [] {
      var last := |original| - 1;
      LeftAll(original[..last], unmatched[..last]);
      assert original == original[..last] + [original[last]];
    }
  }

  lemma {:induction false} LeftTake<T>(original: seq<T>, unmatched: seq<bool>, i: nat)
    requires |unmatched| == |original| && i < |original| && unmatched[i]
    ensures Left(original, unmatched) == Left(original, unmatched[i := false]) + multiset{original[i]}
  {
    var last := |original| - 1;
    if i < last {
      LeftTake(original[..last], unmatched[..last], i);
      assert unmatched[i := false][..last] == unmatched[..last][i := false];
    } else {
      assert unmatched[i := false][..last] == unmatched[..last];
    }
  }

  lemma {:induction false} LeftHas<T>(original: seq<T>, unmatched: seq<bool>, x: T)
    requires |unmatched| == |original|
    ensures x in Left(original, unmatched) <==> exists i :: 0 <= i < |original| && unmatched[i] && original[i] == x
  {
    if original != [] {
      var last := |original| - 1;
      LeftHas(original[..last], unmatched[..last], x);
      if exists i :: 0 <= i < |original| && unmatched[i] && original[i] == x {
        var i :| 0 <= i < |original| && unmatched[i] && original[i] == x;
        assert i < last ==> unmatched[..last][i] && original[..last][i] == x;
      }
    }
  }

  /** The elements at the given places. */
  ghost function At<T>(s: seq<T>, places: seq<nat>): (r: seq<T>)
    requires forall p <- places :: p < |s|
    ensures |r| == |places|
  {
    seq(|places|, i requires 0 <= i < |places| => assert places[i] in places; s[places[i]])
  }

  lemma LeftNone<T>(s: seq<T>, unmatched: seq<bool>)
    requires |unmatched| == |s|
    ensures multiset(At(s, [])) == Left(s[..0], unmatched[..0])
  {
  }

  lemma AtPush<T>(s: seq<T>, places: seq<nat>, p: nat)
    requires p < |s| && forall q <- places :: q < |s|
    ensures multiset(At(s, places + [p])) == multiset(At(s, places)) + multiset{s[p]}
  {
    assert At(s, places + [p]) == At(s, places) + [s[p]];
  }

  lemma LeftPush<T>(original: seq<T>, unmatched: seq<bool>, i: nat)
    requires |unmatched| == |original| && i < |original|
    ensures Left(original[..i + 1], unmatched[..i + 1])
         == Left(original[..i], unmatched[..i]) + (if unmatched[i] then multiset{original[i]} else multiset{})
  {
    assert original[..i + 1][..i] == original[..i] && unmatched[..i + 1][..i] == unmatched[..i];
  }

  /** One more current item meets its original. */
  lemma MatchOne<T>(current: seq<T>, k: nat, original: seq<T>, unmatched: seq<bool>, i: nat)
    requires k < |current| && |unmatched| == |original| && i < |original| && unmatched[i] && original[i] == current[k]
    requires multiset(original) == multiset(current[..k]) + Left(original, unmatched)
    ensures multiset(original) == multiset(current[..k + 1]) + Left(original, unmatched[i := false])
  {
    LeftTake(original, unmatched, i);
    assert current[..k + 1] == current[..k] + [current[k]];
  }

  /** A foreign item: no unmatched original equals it. */
  lemma MatchNone<T>(current: seq<T>, k: nat, original: seq<T>, unmatched: seq<bool>)
    requires k < |current| && |unmatched| == |original|
    requires forall i :: 0 <= i < |original| ==> !(unmatched[i] && original[i] == current[k])
    requires multiset(original) == multiset(current[..k]) + Left(original, unmatched)
    ensures !(multiset(current) <= multiset(original))
  {
    LeftHas(original, unmatched, current[k]);
    assert current == current[..k] + [current[k]] + current[k + 1..];
    assert multiset(current)[current[k]] > multiset(original)[current[k]];
  }

  /** Matches every current item with a distinct original one. With a foreign
      item there is no answer; else the originals are exactly the current items
      and the reported ones. */
  method MissingOriginalIndices<T(==)>(current: seq<T>, original: seq<T>) returns (missing: Option<seq<nat>>)
    ensures missing.Some? <==> multiset(current) <= multiset(original)
    ensures missing.Some? ==> forall p <- missing.value :: p < |original|
    ensures missing.Some? ==> multiset(original) == multiset(current) + multiset(At(original, missing.value))
  {
    hide Left, At;
    var unmatched := new bool[|original|](_ => true);
    LeftAll(original, unmatched[..]);
    for k := 0 to |current|
      invariant multiset(original) == multiset(current[..k]) + Left(original, unmatched[..])
    {
      var index := FirstUnmatched(current[k], original, unmatched);
      if index == |original| {
        MatchNone(current, k, original, unmatched[..]);
        return None;
      }
      MatchOne(current, k, original, unmatched[..], index);
      ghost var before := unmatched[..];
      unmatched[index] := false;
      assert unmatched[..] == before[index := false];
    }
    assert current[..|current|] == current;
    var places := Places(original, unmatched);
    missing := Some(places);
  }

  method FirstUnmatched<T(==)>(item: T, original: seq<T>, unmatched: array<bool>) returns (index: nat)
    requires unmatched.Length == |original|
    ensures index <= |original| && (index < |original| ==> unmatched[index] && original[index] == item)
    ensures index == |original| ==> forall i :: 0 <= i < |original| ==> !(unmatched[i] && original[i] == item)
  {
    index := 0;
    while index < |original| && !(unmatched[index] && original[index] == item)
      invariant 0 <= index <= |original|
      invariant forall i :: 0 <= i < index ==> !(unmatched[i] && original[i] == item)
    {
      index := index + 1;
    }
  }

  method Places<T>(ghost original: seq<T>, unmatched: array<bool>) returns (places: seq<nat>)
    requires unmatched.Length == |original|
    ensures forall p <- places :: p < |original|
    ensures multiset(At(original, places)) == Left(original, unmatched[..])
  {
    hide At, Left;
    places := [];
    LeftNone(original, unmatched[..]);
    for i := 0 to unmatched.Length
      invariant forall p <- places :: p < i
      invariant multiset(At(original, places)) == Left(original[..i], unmatched[..i])
    {
      LeftPush(original, unmatched[..], i);
      assert unmatched[..][..i] == unmatched[..i] && unmatched[..][..i + 1] == unmatched[..i + 1];
      if unmatched[i] {
        AtPush(original, places, i);
        places := places + [i];
      }
    }
    assert original[..unmatched.Length] == original && unmatched[..unmatched.Length] == unmatched[..];
  }

  method SameMultiset<T(==)>(left: seq<T>, right: seq<T>) returns (same: bool)
    ensures same <==> multiset(left) == multiset(right)
  {
    if |left| != |right| {
      assert |multiset(left)| != |multiset(right)|;
      return false;
    }
    var missing := MissingOriginalIndices(left, right);
    same := missing.Some? && missing.value == [];
    if missing.Some? {
      assert |multiset(right)| == |multiset(left)| + |multiset(At(right, missing.value))|;
    }
  }
}
