/** ExchangeCalendarDispatcher: the registry as an object that its methods update. */
module Dispatcher {
  import opened Arrays
  import opened Aliases
  import opened Registration

  /** Some alias leads to a name that is neither a calendar nor a factory. */
  ghost predicate Dangling(r: Registry) {
    exists a :: a in r.aliases && Leaves(r.aliases, a)
      && End(r.aliases, a) !in r.calendars && End(r.aliases, a) !in r.factories
  }

  ghost predicate AllLeave(r: Registry) {
    forall a :: a in r.aliases ==> Leaves(r.aliases, a)
  }

  /** `m` maps every alias to the end of its chain. */
  ghost predicate MapsAliases(r: Registry, m: map<Name, Name>) {
    m.Keys == r.aliases.Keys && forall a :: a in m ==> Leaves(r.aliases, a) && m[a] == End(r.aliases, a)
  }

  /** `dic` lists under every name without repetition the keys in `keys` that `m` maps to it. */
  ghost predicate Inverts(dic: map<Name, seq<Name>>, m: map<Name, Name>, keys: set<Name>) {
    forall n :: n in dic ==>
      && (forall i, j :: 0 <= i < j < |dic[n]| ==> dic[n][i] != dic[n][j])
      && (forall a :: a in dic[n] <==> a in keys && a in m && m[a] == n)
  }

  /** `dic` is the inverse of the map from the aliases to their names. */
  ghost predicate InverseOfAliases(r: Registry, dic: map<Name, seq<Name>>) {
    exists m :: MapsAliases(r, m) && m.Values <= dic.Keys && Inverts(dic, m, m.Keys)
  }

  lemma InverseOk(r: Registry, dic: map<Name, seq<Name>>, m: map<Name, Name>)
    requires dic.Keys == r.calendars.Keys + r.factories.Keys
    requires MapsAliases(r, m) && (forall a :: a in m ==> m[a] in dic) && Inverts(dic, m, m.Keys)
    ensures InverseOfAliases(r, dic) && !Dangling(r)
  {
    assert m.Values <= dic.Keys;
  }

  /** Every alias is listed once, under the canonical name it resolves to, and nothing
      else is listed. */
  lemma EachAliasListedOnce(r: Registry, dic: map<Name, seq<Name>>, a: Name)
    requires InverseOfAliases(r, dic)
    ensures forall n, i :: n in dic && 0 <= i < |dic[n]| && dic[n][i] == a ==> a in r.aliases && Resolve(r, a) == Ok(n)
    ensures a in r.aliases ==> Resolve(r, a).Ok? && Resolve(r, a).value in dic && a in dic[Resolve(r, a).value]
    ensures forall n, i, j ::
      n in dic && 0 <= i < |dic[n]| && 0 <= j < |dic[n]| && dic[n][i] == a && dic[n][j] == a ==> i == j
  {
    var m :| MapsAliases(r, m) && m.Values <= dic.Keys && Inverts(dic, m, m.Keys);
    forall n, i | n in dic && 0 <= i < |dic[n]| && dic[n][i] == a
      ensures a in r.aliases && Resolve(r, a) == Ok(n)
    {
      assert a in dic[n];
    }
    if a in r.aliases {
      assert m[a] in m.Values;
    }
  }

  class ExchangeCalendarDispatcher {
    var calendars: map<Name, Object>
    var factories: map<Name, Factory>
    var aliases: map<Name, Name>
    var cache: map<Name, Cached>

    function State(): Registry
      reads this
    {
      Registry(calendars, factories, aliases, cache)
    }

    constructor (calendars: map<Name, Object>, factories: map<Name, Factory>, aliases: map<Name, Name>)
      ensures State() == Registry(calendars, factories, aliases, map[])
    {
      this.calendars, this.factories, this.aliases := calendars, factories, aliases;
      this.cache := map[];
    }

    method HasCalendar(name: Name) returns (known: bool)
      ensures known <==> Known(State(), name)
    {
      known := name in calendars || name in factories || name in aliases;
    }

    method GetCalendarNames(includeAliases: bool) returns (names: set<Name>)
      ensures forall n :: n in names <==> if includeAliases then Known(State(), n) else n in calendars || n in factories
    {
      names := factories.Keys + calendars.Keys;
      if includeAliases {
        names := names + aliases.Keys;
      }
    }

    method ResolveAlias(name: Name) returns (r: Result<Name, Error>)
      ensures r == Resolve(State(), name)
    {
      var known := GetCalendarNames(true);
      if name !in known {
        return Err(InvalidCalendarName(name));
      }
      var seen: seq<Name> := [];
      var at := name;
      while at in aliases
        invariant at == Follow(aliases, name, |seen|)
        invariant forall i :: 0 <= i < |seen| ==> seen[i] == Follow(aliases, name, i) && seen[i] in aliases
        invariant forall i, j :: 0 <= i < j < |seen| ==> seen[i] != seen[j]
        invariant at !in seen
        invariant |seen| <= |aliases.Keys|
        decreases |aliases.Keys| - |seen|
      {
        FollowNext(aliases, name, |seen|);
        seen := seen + [at];
        Pigeonhole(seen, aliases.Keys);
        at := aliases[at];
        if at in seen {
          NeverLeaves(aliases, name, seen);
          return Err(CyclicCalendarAlias);
        }
      }
      EndUnique(aliases, name, |seen|);
      r := Ok(at);
    }

    method Deregister(name: Name)
      modifies this
      ensures State() == Registration.Deregister(old(State()), name)
    {
      calendars := calendars - {name};
      factories := factories - {name};
      aliases := aliases - {name};
    }

    method Clear()
      modifies this
      ensures State() == Cleared(old(State()))
    {
      calendars := map[];
      factories := map[];
      aliases := map[];
    }

    method RegisterCalendar(name: Name, calendar: Object, force: bool) returns (error: Option<Error>)
      modifies this
      ensures (State(), error) == RegisteredCalendar(old(State()), name, calendar, force)
    {
      if force {
        Deregister(name);
      }
      var known := HasCalendar(name);
      if known {
        return Some(CalendarNameCollision(name));
      }
      calendars := calendars[name := calendar];
      error := None;
    }

    method RegisterCalendarType(name: Name, factory: Factory, force: bool) returns (error: Option<Error>)
      modifies this
      ensures (State(), error) == RegisteredType(old(State()), name, factory, force)
    {
      if force {
        Deregister(name);
      }
      var known := HasCalendar(name);
      if known {
        return Some(CalendarNameCollision(name));
      }
      factories := factories[name := factory];
      error := None;
    }

    method RegisterCalendarAlias(name: Name, target: Name, force: bool) returns (error: Option<Error>)
      modifies this
      ensures (State(), error) == RegisteredAlias(old(State()), name, target, force)
    {
      if force {
        Deregister(name);
      }
      var known := HasCalendar(name);
      if known {
        return Some(CalendarNameCollision(name));
      }
      ghost var before := aliases;
      aliases := aliases[name := target];
      var r := ResolveAlias(name);
      if r == Err(CyclicCalendarAlias) {
        aliases := aliases - {name};
        assert aliases == before;
        return Some(CyclicCalendarAlias);
      }
      error := None;
    }

    /** Every alias with its canonical name; fails when some alias runs in a circle. */
    method AliasesToNames() returns (r: Result<map<Name, Name>, Error>)
      ensures r.Ok? ==> MapsAliases(State(), r.value)
      ensures r.Err? ==> r.error == CyclicCalendarAlias
      ensures r.Ok? <==> AllLeave(State())
    {
      var m: map<Name, Name> := map[];
      var rest := aliases.Keys;
      while rest != {}
        invariant rest <= aliases.Keys && m.Keys == aliases.Keys - rest
        invariant forall a :: a in m ==> Leaves(aliases, a) && m[a] == End(aliases, a)
      {
        var alias :| alias in rest;
        var n := ResolveAlias(alias);
        if n.Err? {
          return Err(n.error);
        }
        m := m[alias := n.value];
        rest := rest - {alias};
      }
      r := Ok(m);
    }

    /** Every canonical name with its aliases; fails when some alias dangles or runs in
        a circle. */
    method NamesToAliases() returns (r: Result<map<Name, seq<Name>>, Error>)
      ensures r.Ok? ==> r.value.Keys == calendars.Keys + factories.Keys && InverseOfAliases(State(), r.value)
      ensures r.Ok? <==> AllLeave(State()) && !Dangling(State())
      ensures r.Err? ==> r.error == if AllLeave(State()) then KeyError else CyclicCalendarAlias
    {
      var names := GetCalendarNames(false);
      var dic: map<Name, seq<Name>> := map n | n in names :: [];
      var pairs := AliasesToNames();
      if pairs.Err? {
        return Err(pairs.error);
      }
      var m := pairs.value;
      var rest := m.Keys;
      ghost var done: set<Name> := {};
      while rest != {}
        invariant rest + done == m.Keys && rest !! done
        invariant Listed(dic, m, done, names)
      {
        var alias :| alias in rest;
        var name := m[alias];
        if name !in dic {
          Dangles(State(), m, alias);
          return Err(KeyError);
        }
        AppendInverts(dic, m, done, alias, names);
        dic := dic[name := dic[name] + [alias]];
        done := done + {alias};
        rest := rest - {alias};
      }
      assert done == m.Keys;
      InverseOk(State(), dic, m);
      r := Ok(dic);
    }

    method Fabricate(name: Name, kwargs: Kwargs, made: Option<Object>) returns (r: Result<Object, Error>)
      modifies this
      ensures Outcome(State(), r) == Fabricated(old(State()), name, kwargs, made)
    {
      if name !in factories {
        return Err(InvalidCalendarName(name));
      }
      if made.None? {
        return Err(FactoryRaised);
      }
      cache := cache[name := Cached(made.value, kwargs)];
      r := Ok(made.value);
    }

    method GetCachedFactoryOutput(name: Name, kwargs: Kwargs) returns (c: Option<Object>)
      ensures c.Some? <==> name in cache && cache[name].kwargs == kwargs
      ensures c.Some? ==> c.value == cache[name].calendar
    {
      if name in cache && cache[name].kwargs == kwargs {
        return Some(cache[name].calendar);
      }
      c := None;
    }

    method GetCalendar(name: Name, q: Request, made: Option<Object>) returns (r: Result<Object, Error>)
      modifies this
      ensures Outcome(State(), r) == Got(old(State()), name, q, made)
    {
      var resolved := ResolveAlias(name);
      if resolved.Err? {
        return Err(resolved.error);
      }
      var n := resolved.value;
      if n in calendars {
        if !Empty(q) {
          return Err(ArgumentsForInstance(n));
        }
        return Ok(calendars[n]);
      }
      var kwargs := Normalise(q);
      if kwargs.Err? {
        return Err(kwargs.error);
      }
      var cached := GetCachedFactoryOutput(n, kwargs.value);
      if cached.Some? {
        return Ok(cached.value);
      }
      r := Fabricate(n, kwargs.value, made);
    }
  }

  /** A chain that comes to a name it has seen never leaves the aliases. */
  lemma NeverLeaves(m: map<Name, Name>, n: Name, seen: seq<Name>)
    requires forall i :: 0 <= i < |seen| ==> seen[i] == Follow(m, n, i) && seen[i] in m
    requires Follow(m, n, |seen|) in seen
    ensures !Leaves(m, n)
  {
    var i :| 0 <= i < |seen| && seen[i] == Follow(m, n, |seen|);
    forall k: nat ensures Follow(m, n, k) in m {
      LoopsForEver(m, n, i, |seen|, k);
    }
  }

  /** Every name has its list, so far of the aliases in `keys`. */
  ghost predicate Listed(dic: map<Name, seq<Name>>, m: map<Name, Name>, keys: set<Name>, names: set<Name>) {
    dic.Keys == names && Inverts(dic, m, keys) && forall a :: a in keys && a in m ==> m[a] in names
  }

  lemma Dangles(r: Registry, m: map<Name, Name>, alias: Name)
    requires MapsAliases(r, m) && alias in m && m[alias] !in r.calendars && m[alias] !in r.factories
    ensures AllLeave(r) && Dangling(r)
  {}

  lemma AppendInverts(dic: map<Name, seq<Name>>, m: map<Name, Name>, keys: set<Name>, alias: Name, names: set<Name>)
    requires Listed(dic, m, keys, names) && alias in m && alias !in keys && m[alias] in dic
    ensures Listed(dic[m[alias] := dic[m[alias]] + [alias]], m, keys + {alias}, names)
  {
    var more := dic[m[alias] := dic[m[alias]] + [alias]];
    forall n | n in more
      ensures forall i, j :: 0 <= i < j < |more[n]| ==> more[n][i] != more[n][j]
      ensures forall a :: a in more[n] <==> a in keys + {alias} && a in m && m[a] == n
    {
      if n == m[alias] {
        assert alias !in dic[n];
        forall i, j | 0 <= i < j < |more[n]| ensures more[n][i] != more[n][j] {
          assert more[n][i] in dic[n];
        }
      }
    }
  }
}
