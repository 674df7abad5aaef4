/**
 Which addresses are dialled for a node, and what the tiers of the ladder answer
 (crates/dig-app-core/src/control.rs). Name resolution, who accepts a connection and the exchange over it
 are the world's to decide, and may differ from one attempt and one tier to the next.
 */
module NodeDial {
  import opened Wrappers
  import opened Text
  import opened Endpoints
  import Decimal

  datatype Address = Address(ip: string, port: nat, ipv6: bool, loopback: bool)

  datatype Failure<E> = BadEndpoint | Unreachable | Exchange(error: E)

  /** The world one call meets: what names resolve to, whether the n-th attempt is accepted, and what is then said. */
  datatype World<!S, !E> = World(resolve: (string, nat) -> Option<seq<Address>>,
                                 accepts: (nat, Address) -> bool,
                                 exchange: Address -> Result<S, E>)

  /** A host DIG guesses at, whatever its case and final dots; the user vouches for any other. */
  predicate AutoDiscovered(host: string) {
    var name := TrimEndMatches(host, '.');
    EqIgnoreCase(name, DIG_LOCAL_HOST) || EqIgnoreCase(name, LOCALHOST)
  }

  /** The guessed hosts are these two, in any case, with any number of dots after them. */
  lemma GuessedExactly(host: string)
    ensures AutoDiscovered(host) <==>
            exists n :: && 0 <= n <= |host| && (forall i :: n <= i < |host| ==> host[i] == '.')
                        && (SameButForCase(host[..n], "dig.local") || SameButForCase(host[..n], "localhost"))
  {
    hide TrimEndMatches, EqIgnoreCase, SameButForCase;
    var name := TrimEndMatches(host, '.');
    TrimEndMatchesExact(host, '.');
    assert host[..|name|] == name;
    EqIgnoreCaseExactly(name, "dig.local");
    EqIgnoreCaseExactly(name, "localhost");
    forall n | && 0 <= n <= |host| && (forall i :: n <= i < |host| ==> host[i] == '.')
               && (SameButForCase(host[..n], "dig.local") || SameButForCase(host[..n], "localhost"))
      ensures host[..n] == name
    {
      EndsInALetter(host[..n]);
    }
  }

  lemma EndsInALetter(name: string)
    requires SameButForCase(name, "dig.local") || SameButForCase(name, "localhost")
    ensures name != "" && name[|name| - 1] != '.'
  {
  }

  // ---------------------------------------------------------------- dialling

  function Retained(addrs: seq<Address>): seq<Address> {
    if addrs == [] then []
    else (if addrs[0].loopback then [addrs[0]] else []) + Retained(addrs[1..])
  }

  function OfFamily(addrs: seq<Address>, ipv6: bool): seq<Address> {
    if addrs == [] then []
    else (if addrs[0].ipv6 == ipv6 then [addrs[0]] else []) + OfFamily(addrs[1..], ipv6)
  }

  /** The stable sort that puts IPv6 first. */
  function Preferred(addrs: seq<Address>): seq<Address> {
    OfFamily(addrs, true) + OfFamily(addrs, false)
  }

  /** The addresses a connection to `host` may be tried at, in order. */
  function Candidates(resolved: seq<Address>, host: string): seq<Address> {
    Preferred(if AutoDiscovered(host) then Retained(resolved) else resolved)
  }

  /** The position of the first attempt to be accepted, or the number of addresses. */
  function Attempts(addrs: seq<Address>, accepts: (nat, Address) -> bool, from: nat): (n: nat)
    requires from <= |addrs|
    ensures from <= n <= |addrs|
    ensures forall i :: from <= i < n ==> !accepts(i, addrs[i])
    ensures n < |addrs| ==> accepts(n, addrs[n])
    decreases |addrs| - from
  {
    if from == |addrs| || accepts(from, addrs[from]) then from else Attempts(addrs, accepts, from + 1)
  }

  /** The addresses tried: up to and including the first to accept, or all of them. */
  function Dialled(addrs: seq<Address>, accepts: (nat, Address) -> bool): seq<Address> {
    var n := Attempts(addrs, accepts, 0);
    if n < |addrs| then addrs[..n + 1] else addrs
  }

  function Reached(addrs: seq<Address>, accepts: (nat, Address) -> bool): Option<Address> {
    var n := Attempts(addrs, accepts, 0);
    if n < |addrs| then Some(addrs[n]) else None
  }

  method Dial(addrs: seq<Address>, accepts: (nat, Address) -> bool) returns (reached: Option<Address>, dialled: seq<Address>)
    ensures dialled == Dialled(addrs, accepts) && reached == Reached(addrs, accepts)
  {
    dialled := [];
    for i := 0 to |addrs|
      invariant dialled == addrs[..i]
      invariant forall j :: 0 <= j < i ==> !accepts(j, addrs[j])
    {
      dialled := dialled + [addrs[i]];
      if accepts(i, addrs[i]) {
        return Some(addrs[i]), dialled;
      }
    }
    return None, dialled;
  }

  /** The address a connection to `host` reaches. */
  function ConnectionTo<S, E>(host: string, port: nat, world: World<S, E>): Result<Address, Failure<E>> {
    match world.resolve(host, port)
    case None => Err(Unreachable)
    case Some(resolved) =>
      var addrs := Candidates(resolved, host);
      match Reached(addrs, world.accepts)
      case Some(a) => Ok(a)
      case None => Err(if addrs == [] && !AutoDiscovered(host) then BadEndpoint else Unreachable)
  }

  /** The addresses dialled on the way. */
  function DialledTo<S, E>(host: string, port: nat, world: World<S, E>): seq<Address> {
    match world.resolve(host, port)
    case None => []
    case Some(resolved) => Dialled(Candidates(resolved, host), world.accepts)
  }

  method Connect<S, E>(host: string, port: nat, world: World<S, E>)
    returns (r: Result<Address, Failure<E>>, dialled: seq<Address>)
    ensures r == ConnectionTo(host, port, world) && dialled == DialledTo(host, port, world)
  {
    hide AutoDiscovered, Preferred, Retained;
    var resolved := world.resolve(host, port);
    if resolved.None? {
      return Err(Unreachable), [];
    }
    var addrs := resolved.value;
    if AutoDiscovered(host) {
      addrs := Retained(addrs);
      PreferredKeeps(addrs);
      if addrs == [] {
        return Err(Unreachable), [];
      }
    }
    addrs := Preferred(addrs);
    if addrs == [] {
      return Err(BadEndpoint), [];
    }
    var reached;
    reached, dialled := Dial(addrs, world.accepts);
    r := if reached.Some? then Ok(reached.value) else Err(Unreachable);
  }

  lemma {:induction false} FamiliesKeep(addrs: seq<Address>)
    ensures multiset(OfFamily(addrs, true)) + multiset(OfFamily(addrs, false)) == multiset(addrs)
  {
    if addrs != [] {
      FamiliesKeep(addrs[1..]);
      assert addrs == [addrs[0]] + addrs[1..];
    }
  }

  /** Preferring a family loses no address and adds none. */
  lemma PreferredKeeps(addrs: seq<Address>)
    ensures multiset(Preferred(addrs)) == multiset(addrs)
    ensures |Preferred(addrs)| == |addrs|
  {
    FamiliesKeep(addrs);
    assert |multiset(Preferred(addrs))| == |Preferred(addrs)| && |multiset(addrs)| == |addrs|;
  }

  lemma {:induction false} FamilyExact(addrs: seq<Address>, ipv6: bool)
    ensures forall a :: a in OfFamily(addrs, ipv6) <==> a in addrs && a.ipv6 == ipv6
  {
    if addrs != [] {
      FamilyExact(addrs[1..], ipv6);
      assert addrs == [addrs[0]] + addrs[1..];
    }
  }

  lemma {:induction false} RetainedExact(addrs: seq<Address>)
    ensures forall a :: a in Retained(addrs) <==> a in addrs && a.loopback
  {
    if addrs != [] {
      RetainedExact(addrs[1..]);
      assert addrs == [addrs[0]] + addrs[1..];
    }
  }

  /** Keeping loopback addresses, or one family, keeps each address or drops it by itself, in order. */
  lemma KeptOneByOne(a: seq<Address>, b: seq<Address>, one: Address, ipv6: bool)
    ensures Retained(a + b) == Retained(a) + Retained(b) && Retained([one]) == if one.loopback then [one] else []
    ensures OfFamily(a + b, ipv6) == OfFamily(a, ipv6) + OfFamily(b, ipv6)
    ensures OfFamily([one], ipv6) == if one.ipv6 == ipv6 then [one] else []
  {
    RetainedAppend(a, b);
    FamilyAppend(a, b, ipv6);
    assert [one][1..] == [];
  }

  lemma {:induction false} RetainedAppend(a: seq<Address>, b: seq<Address>)
    ensures Retained(a + b) == Retained(a) + Retained(b)
  {
    if a == [] {
      assert a + b == b;
    } else {
      assert (a + b)[1..] == a[1..] + b && (a + b)[0] == a[0];
      RetainedAppend(a[1..], b);
      var kept := if a[0].loopback then [a[0]] else [];
      assert kept + (Retained(a[1..]) + Retained(b)) == kept + Retained(a[1..]) + Retained(b);
    }
  }

  /** An address is a candidate exactly when the name resolves to it and it is loopback or the user's own choice. */
  lemma CandidatesExactly(resolved: seq<Address>, host: string, a: Address)
    ensures a in Candidates(resolved, host) <==> a in resolved && (AutoDiscovered(host) ==> a.loopback)
  {
    var addrs := if AutoDiscovered(host) then Retained(resolved) else resolved;
    RetainedExact(resolved);
    FamilyExact(addrs, true);
    FamilyExact(addrs, false);
  }

  /** Every IPv6 candidate comes before every other, and each family is in the resolver's own order. */
  lemma CandidatesInOrder(resolved: seq<Address>, host: string, i: nat, j: nat)
    requires i < j < |Candidates(resolved, host)|
    ensures Candidates(resolved, host)[j].ipv6 ==> Candidates(resolved, host)[i].ipv6
    ensures forall ipv6 :: OfFamily(Candidates(resolved, host), ipv6)
                        == OfFamily(if AutoDiscovered(host) then Retained(resolved) else resolved, ipv6)
  {
    var addrs := if AutoDiscovered(host) then Retained(resolved) else resolved;
    FamilyExact(addrs, true);
    FamilyExact(addrs, false);
    assert Preferred(addrs)[j] in OfFamily(addrs, true) || j >= |OfFamily(addrs, true)|;
    assert j >= |OfFamily(addrs, true)| ==> Preferred(addrs)[j] == OfFamily(addrs, false)[j - |OfFamily(addrs, true)|];
    forall ipv6 ensures OfFamily(Preferred(addrs), ipv6) == OfFamily(addrs, ipv6) {
      FamilyAppend(OfFamily(addrs, true), OfFamily(addrs, false), ipv6);
      FamilyOfFamily(addrs, true, ipv6);
      FamilyOfFamily(addrs, false, ipv6);
    }
  }

  lemma {:induction false} FamilyAppend(a: seq<Address>, b: seq<Address>, ipv6: bool)
    ensures OfFamily(a + b, ipv6) == OfFamily(a, ipv6) + OfFamily(b, ipv6)
  {
    if a == [] {
      assert a + b == b;
    } else {
      assert (a + b)[1..] == a[1..] + b && (a + b)[0] == a[0];
      FamilyAppend(a[1..], b, ipv6);
      var kept := if a[0].ipv6 == ipv6 then [a[0]] else [];
      assert kept + (OfFamily(a[1..], ipv6) + OfFamily(b, ipv6)) == kept + OfFamily(a[1..], ipv6) + OfFamily(b, ipv6);
    }
  }

  lemma {:induction false} FamilyOfFamily(addrs: seq<Address>, one: bool, other: bool)
    ensures OfFamily(OfFamily(addrs, one), other) == if one == other then OfFamily(addrs, one) else []
  {
    if addrs != [] {
      FamilyOfFamily(addrs[1..], one, other);
      var kept := if addrs[0].ipv6 == one then [addrs[0]] else [];
      FamilyAppend(kept, OfFamily(addrs[1..], one), other);
      assert [addrs[0]][1..] == [];
    }
  }

  // ---------------------------------------------------------------- asking

  /** The addresses dialled for `endpoint`. */
  function DialledFor<S, E>(endpoint: string, world: World<S, E>): seq<Address> {
    match SplitHostPort(endpoint)
    case Err(_) => []
    case Ok((host, port)) => DialledTo(host, port, world)
  }

  /** What `endpoint` answers. */
  function Answered<S, E>(endpoint: string, world: World<S, E>): Result<S, Failure<E>> {
    match SplitHostPort(endpoint)
    case Err(_) => Err(BadEndpoint)
    case Ok((host, port)) =>
      match ConnectionTo(host, port, world)
      case Err(e) => Err(e)
      case Ok(address) =>
        match world.exchange(address)
        case Ok(status) => Ok(status)
        case Err(e) => Err(Exchange(e))
  }

  /** Asks one endpoint; `dialled` is every address a connection, and so the control token, could have gone to. */
  method FetchStatus<S, E>(endpoint: string, world: World<S, E>)
    returns (r: Result<S, Failure<E>>, dialled: seq<Address>)
    ensures r == Answered(endpoint, world) && dialled == DialledFor(endpoint, world)
  {
    hide SplitHostPort, ConnectionTo, DialledTo;
    var target := SplitHostPort(endpoint);
    if target.Err? {
      return Err(BadEndpoint), [];
    }
    var connected;
    connected, dialled := Connect(target.value.0, target.value.1, world);
    match connected {
      case Err(e) => r := Err(e);
      case Ok(address) =>
        match world.exchange(address) {
          case Ok(status) => r := Ok(status);
          case Err(e) => r := Err(Exchange(e));
        }
    }
  }

  /** The endpoint names a host and port, the host resolves to `resolved`, and attempt `n` is the first accepted. */
  ghost predicate Reaches<S, E>(endpoint: string, world: World<S, E>, host: string, port: nat, resolved: seq<Address>, n: nat) {
    && SplitHostPort(endpoint) == Ok((host, port)) && world.resolve(host, port) == Some(resolved)
    && n < |Candidates(resolved, host)| && world.accepts(n, Candidates(resolved, host)[n])
    && forall i: nat :: i < n ==> !world.accepts(i, Candidates(resolved, host)[i])
  }

  /** The endpoint's host resolves, and no attempt on its candidates is accepted. */
  ghost predicate AllRefuse<S, E>(endpoint: string, world: World<S, E>, host: string, port: nat, resolved: seq<Address>) {
    && SplitHostPort(endpoint) == Ok((host, port)) && world.resolve(host, port) == Some(resolved)
    && forall i: nat :: i < |Candidates(resolved, host)| ==> !world.accepts(i, Candidates(resolved, host)[i])
  }

  /**
   One endpoint's answer, exactly. It is what the first candidate to accept says, and nobody after that one
   is dialled; each of the other refusals has its own condition.
   */
  lemma AnsweredExactly<S, E>(endpoint: string, world: World<S, E>, status: S, error: E)
    ensures Answered(endpoint, world) == Ok(status) <==>
            exists host, port, resolved, n: nat ::
              && Reaches(endpoint, world, host, port, resolved, n)
              && world.exchange(Candidates(resolved, host)[n]) == Ok(status)
              && DialledFor(endpoint, world) == Candidates(resolved, host)[..n + 1]
    ensures Answered(endpoint, world) == Err(Exchange(error)) <==>
            exists host, port, resolved, n: nat ::
              && Reaches(endpoint, world, host, port, resolved, n)
              && world.exchange(Candidates(resolved, host)[n]) == Err(error)
              && DialledFor(endpoint, world) == Candidates(resolved, host)[..n + 1]
    ensures Answered(endpoint, world) == Err(BadEndpoint) <==>
            || SplitHostPort(endpoint).Err?
            || exists host, port :: AllRefuse(endpoint, world, host, port, []) && !AutoDiscovered(host)
    ensures Answered(endpoint, world) == Err(Unreachable) <==>
            || (SplitHostPort(endpoint).Ok? &&
                world.resolve(SplitHostPort(endpoint).value.0, SplitHostPort(endpoint).value.1).None?)
            || exists host, port, resolved ::
                 && AllRefuse(endpoint, world, host, port, resolved)
                 && (resolved != [] || AutoDiscovered(host))
                 && DialledFor(endpoint, world) == Candidates(resolved, host)
  {
    hide SplitHostPort, Candidates, AutoDiscovered;
    if SplitHostPort(endpoint).Ok? {
      var (host, port) := SplitHostPort(endpoint).value;
      if world.resolve(host, port).Some? {
        var resolved := world.resolve(host, port).value;
        var addrs := Candidates(resolved, host);
        var n := Attempts(addrs, world.accepts, 0);
        CandidatesOfNone(resolved, host);
        FirstIsFirst(addrs, world.accepts);
        if n < |addrs| {
          assert Reaches(endpoint, world, host, port, resolved, n);
        } else {
          assert AllRefuse(endpoint, world, host, port, resolved);
        }
      }
    }
  }

  /** An endpoint that names nothing, or whose host does not resolve, is not dialled at all. */
  lemma NothingDialled<S, E>(endpoint: string, world: World<S, E>)
    requires SplitHostPort(endpoint).Ok? ==>
               world.resolve(SplitHostPort(endpoint).value.0, SplitHostPort(endpoint).value.1).None?
    ensures DialledFor(endpoint, world) == []
  {
    hide SplitHostPort;
  }

  lemma FirstIsFirst(addrs: seq<Address>, accepts: (nat, Address) -> bool)
    ensures forall n: nat :: n < |addrs| && accepts(n, addrs[n]) && (forall i: nat :: i < n ==> !accepts(i, addrs[i]))
              ==> Attempts(addrs, accepts, 0) == n
  {
  }

  lemma CandidatesOfNone(resolved: seq<Address>, host: string)
    ensures resolved == [] ==> Candidates(resolved, host) == []
    ensures !AutoDiscovered(host) && Candidates(resolved, host) == [] ==> resolved == []
  {
    hide AutoDiscovered;
    PreferredKeeps(resolved);
  }

  /** The addresses dialled for each of `ladder` in turn, each tier in its own world. */
  function DialledForAll<S, E>(ladder: seq<string>, worlds: nat -> World<S, E>): seq<Address> {
    if ladder == [] then []
    else
      var n := |ladder| - 1;
      DialledForAll(ladder[..n], worlds) + DialledFor(ladder[n], worlds(n))
  }

  /** Walks the ladder to the first tier that answers, keeping every failure on the way. */
  method ResolveStatus<S, E>(ladder: seq<string>, worlds: nat -> World<S, E>)
    returns (r: Result<(string, S), seq<(string, Failure<E>)>>, dialled: seq<Address>)
    ensures r.Err? ==>
              && |r.error| == |ladder| && dialled == DialledForAll(ladder, worlds)
              && forall i: nat :: i < |ladder| ==>
                   Answered(ladder[i], worlds(i)) == Err(r.error[i].1) && r.error[i].0 == ladder[i]
    ensures r.Ok? ==>
              exists k: nat ::
                && k < |ladder| && r.value.0 == ladder[k] && Answered(ladder[k], worlds(k)) == Ok(r.value.1)
                && dialled == DialledForAll(ladder[..k + 1], worlds)
                && forall i: nat :: i < k ==> Answered(ladder[i], worlds(i)).Err?
  {
    hide Answered, DialledFor;
    var failures: seq<(string, Failure<E>)> := [];
    dialled := [];
    for k := 0 to |ladder|
      invariant |failures| == k && dialled == DialledForAll(ladder[..k], worlds)
      invariant forall i: nat :: i < k ==>
                  Answered(ladder[i], worlds(i)) == Err(failures[i].1) && failures[i].0 == ladder[i]
    {
      assert ladder[..k + 1][..k] == ladder[..k] && ladder[..k + 1][k] == ladder[k];
      var answer, addrs := FetchStatus(ladder[k], worlds(k));
      dialled := dialled + addrs;
      match answer {
        case Ok(status) => return Ok((ladder[k], status)), dialled;
        case Err(e) => failures := failures + [(ladder[k], e)];
      }
    }
    assert ladder[..|ladder|] == ladder;
    return Err(failures), dialled;
  }

  // ---------------------------------------------------------------- the token stays on the machine

  /** Whatever names resolve to and whoever answers, a guessed host is dialled on this machine only. */
  lemma GuessedHostsStayLocal<S, E>(endpoint: string, world: World<S, E>, a: Address)
    requires SplitHostPort(endpoint).Ok? && AutoDiscovered(SplitHostPort(endpoint).value.0)
    requires a in DialledFor(endpoint, world)
    ensures a.loopback
  {
    hide SplitHostPort, Candidates;
    var (host, port) := SplitHostPort(endpoint).value;
    var resolved := world.resolve(host, port).value;
    CandidatesExactly(resolved, host, a);
    assert a in Candidates(resolved, host);
  }

  /** What is dialled over a ladder is what is dialled for one of its tiers, and all of that. */
  lemma {:induction false} DialledExactly<S, E>(ladder: seq<string>, worlds: nat -> World<S, E>, a: Address)
    ensures a in DialledForAll(ladder, worlds) <==> exists i: nat :: i < |ladder| && a in DialledFor(ladder[i], worlds(i))
  {
    hide DialledFor;
    if a in DialledForAll(ladder, worlds) {
      DialledForOne(ladder, worlds, a);
    }
    if i: nat :| i < |ladder| && a in DialledFor(ladder[i], worlds(i)) {
      if i < |ladder| - 1 {
        assert ladder[..|ladder| - 1][i] == ladder[i];
        DialledExactly(ladder[..|ladder| - 1], worlds, a);
      }
    }
  }

  lemma {:induction false} DialledForOne<S, E>(ladder: seq<string>, worlds: nat -> World<S, E>, a: Address)
    requires a in DialledForAll(ladder, worlds)
    ensures exists i: nat :: i < |ladder| && a in DialledFor(ladder[i], worlds(i))
  {
    hide DialledFor;
    var n := |ladder| - 1;
    if a !in DialledFor(ladder[n], worlds(n)) {
      DialledForOne(ladder[..n], worlds, a);
      var i: nat :| i < n && a in DialledFor(ladder[..n][i], worlds(i));
      assert ladder[..n][i] == ladder[i];
    }
  }

  lemma GuessesAreGuessed()
    ensures AutoDiscovered(DIG_LOCAL_HOST) && AutoDiscovered(LOCALHOST)
  {
  }

  /** With no node configured, or a blank one, nothing off this machine is dialled, at any tier, in any world. */
  lemma LadderStaysLocal<S, E>(configured: Option<string>, tiers: nat, worlds: nat -> World<S, E>, a: Address)
    requires configured.Some? ==> Blank(configured.value)
    requires tiers <= |Ladder(configured)| && a in DialledForAll(Ladder(configured)[..tiers], worlds)
    ensures a.loopback
  {
    hide SplitHostPort, AutoDiscovered, Decimal.Numeral, Trim, DialledFor;
    if configured.Some? {
      TrimEmptyIffBlank(configured.value);
    }
    var ladder := Ladder(configured)[..tiers];
    DialledForOne(ladder, worlds, a);
    var i: nat :| i < |ladder| && a in DialledFor(ladder[i], worlds(i));
    LocalTiers(if configured.Some? then configured.value else "");
    GuessesAreGuessed();
    GuessedHostsStayLocal(ladder[i], worlds(i), a);
  }
}
