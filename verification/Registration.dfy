/** The names that `ExchangeCalendarDispatcher` knows, and what each operation makes of
    them. */
module Registration {
  import opened Arrays
  import opened Aliases

  /** A calendar object and a factory, by identity. */
  datatype Object = Object(id: int)
  datatype Factory = Factory(id: int)

  datatype Error =
    | InvalidCalendarName(name: Name)
    | CalendarNameCollision(name: Name)
    | CyclicCalendarAlias
    | ArgumentsForInstance(name: Name)
    | NotADate
    | FactoryRaised
    | KeyError

  /** A `start` or `end` as the caller gives it: None, something falsy, something that
      parses as a date, or something that does not. */
  datatype Arg = NotGiven | Falsy | Parses(date: int) | Garbage

  /** What a factory is called with; `side` only when it was given. */
  datatype Kwargs = Kwargs(start: Option<int>, end: Option<int>, side: Option<string>)

  datatype Request = Request(start: Arg, end: Arg, side: Option<string>)

  datatype Cached = Cached(calendar: Object, kwargs: Kwargs)

  datatype Registry = Registry(
    calendars: map<Name, Object>, factories: map<Name, Factory>, aliases: map<Name, Name>,
    cache: map<Name, Cached>)

  /** The registry after an operation, and what the operation returned or raised. */
  datatype Outcome = Outcome(after: Registry, result: Result<Object, Error>)

  predicate Known(r: Registry, n: Name) {
    n in r.calendars || n in r.factories || n in r.aliases
  }

  /** The canonical name at the end of the alias chain. */
  ghost function Resolve(r: Registry, n: Name): Result<Name, Error> {
    if !Known(r, n) then Err(InvalidCalendarName(n))
    else if Leaves(r.aliases, n) then Ok(End(r.aliases, n))
    else Err(CyclicCalendarAlias)
  }

  function Deregister(r: Registry, n: Name): Registry {
    r.(calendars := r.calendars - {n}, factories := r.factories - {n}, aliases := r.aliases - {n})
  }

  function Cleared(r: Registry): Registry {
    r.(calendars := map[], factories := map[], aliases := map[])
  }

  function Forced(r: Registry, n: Name, force: bool): Registry {
    if force then Deregister(r, n) else r
  }

  // ----- the arguments of get_calendar -----

  function Date(a: Arg): Result<Option<int>, Error> {
    match a
    case NotGiven => Ok(None)
    case Falsy => Ok(None)
    case Parses(d) => Ok(Some(d))
    case Garbage => Err(NotADate)
  }

  function Normalise(q: Request): Result<Kwargs, Error> {
    var start :- Date(q.start);
    var end :- Date(q.end);
    Ok(Kwargs(start, end, q.side))
  }

  predicate Empty(q: Request) {
    q.start.NotGiven? && q.end.NotGiven? && q.side.None?
  }

  // ----- operations -----

  datatype Op =
    | RegisterCalendar(name: Name, calendar: Object, force: bool)
    | RegisterType(name: Name, factory: Factory, force: bool)
    | RegisterAlias(name: Name, target: Name, force: bool)
    | DeregisterCalendar(name: Name)
    | ClearCalendars
    | GetCalendar(name: Name, request: Request, made: Option<Object>)
  // `made` is what a factory would return if it were called now; None if it would raise.

  /** What registering under `n` starts from: `force` removes what is there; without it
      a known name is an error. */
  function Vacate(r: Registry, n: Name, force: bool): Result<Registry, Error> {
    if Known(r, n) && !force then Err(CalendarNameCollision(n)) else Ok(Forced(r, n, force))
  }

  ghost function RegisteredAlias(r: Registry, n: Name, target: Name, force: bool): (Registry, Option<Error>) {
    match Vacate(r, n, force)
    case Err(e) => (r, Some(e))
    case Ok(v) =>
      if Leaves(v.aliases[n := target], n) then (v.(aliases := v.aliases[n := target]), None)
      else (v, Some(CyclicCalendarAlias))
  }

  function RegisteredCalendar(r: Registry, n: Name, calendar: Object, force: bool): (Registry, Option<Error>) {
    match Vacate(r, n, force)
    case Err(e) => (r, Some(e))
    case Ok(v) => (v.(calendars := v.calendars[n := calendar]), None)
  }

  function RegisteredType(r: Registry, n: Name, factory: Factory, force: bool): (Registry, Option<Error>) {
    match Vacate(r, n, force)
    case Err(e) => (r, Some(e))
    case Ok(v) => (v.(factories := v.factories[n := factory]), None)
  }

  /** The factory's calendar for the canonical name `n`, kept in the cache. */
  function Fabricated(r: Registry, n: Name, kwargs: Kwargs, made: Option<Object>): Outcome {
    if n !in r.factories then Outcome(r, Err(InvalidCalendarName(n)))
    else match made
      case None => Outcome(r, Err(FactoryRaised))
      case Some(c) => Outcome(r.(cache := r.cache[n := Cached(c, kwargs)]), Ok(c))
  }

  /** A calendar of the canonical name `n`: from the cache if it was last built with the
      same arguments, otherwise from the factory. */
  function Provide(r: Registry, n: Name, kwargs: Kwargs, made: Option<Object>): Outcome {
    if n in r.cache && r.cache[n].kwargs == kwargs then Outcome(r, Ok(r.cache[n].calendar))
    else Fabricated(r, n, kwargs, made)
  }

  ghost function Got(r: Registry, name: Name, q: Request, made: Option<Object>): Outcome {
    match Resolve(r, name)
    case Err(e) => Outcome(r, Err(e))
    case Ok(n) =>
      if n in r.calendars then
        Outcome(r, if Empty(q) then Ok(r.calendars[n]) else Err(ArgumentsForInstance(n)))
      else match Normalise(q)
        case Err(e) => Outcome(r, Err(e))
        case Ok(kwargs) => Provide(r, n, kwargs, made)
  }

  ghost function Exec(r: Registry, op: Op): Registry {
    match op
    case RegisterCalendar(n, c, force) => RegisteredCalendar(r, n, c, force).0
    case RegisterType(n, f, force) => RegisteredType(r, n, f, force).0
    case RegisterAlias(n, target, force) => RegisteredAlias(r, n, target, force).0
    case DeregisterCalendar(n) => Deregister(r, n)
    case ClearCalendars => Cleared(r)
    case GetCalendar(n, q, made) => Got(r, n, q, made).after
  }

  ghost function After(r: Registry, ops: seq<Op>): Registry
    decreases |ops|
  {
    if ops == [] then r else Exec(After(r, ops[..|ops| - 1]), ops[|ops| - 1])
  }

  // ----- what every operation keeps -----

  /** A name is a calendar, a factory or an alias, but only one of them. */
  predicate Separate(r: Registry) {
    r.calendars.Keys !! r.factories.Keys && r.calendars.Keys !! r.aliases.Keys && r.factories.Keys !! r.aliases.Keys
  }

  ghost predicate Good(r: Registry) {
    Separate(r) && Acyclic(r.aliases)
  }

  lemma DeregisterGood(r: Registry, n: Name)
    requires Good(r)
    ensures Good(Deregister(r, n))
  {
    FewerAcyclic(r.aliases, r.aliases - {n});
  }

  lemma VacateGood(r: Registry, n: Name, force: bool)
    requires Good(r) && Vacate(r, n, force).Ok?
    ensures var v := Vacate(r, n, force).value; Good(v) && !Known(v, n)
  {
    DeregisterGood(r, n);
  }

  lemma AliasGood(r: Registry, n: Name, target: Name, force: bool)
    requires Good(r)
    ensures Good(RegisteredAlias(r, n, target, force).0)
  {
    if Vacate(r, n, force).Ok? {
      var v := Vacate(r, n, force).value;
      VacateGood(r, n, force);
      if Leaves(v.aliases[n := target], n) {
        MoreAcyclic(v.aliases, n, target);
      }
    }
  }

  lemma ExecGood(r: Registry, op: Op)
    requires Good(r)
    ensures Good(Exec(r, op))
  {
    match op
    case RegisterCalendar(n, c, force) => if Vacate(r, n, force).Ok? { VacateGood(r, n, force); }
    case RegisterType(n, f, force) => if Vacate(r, n, force).Ok? { VacateGood(r, n, force); }
    case RegisterAlias(n, target, force) => AliasGood(r, n, target, force);
    case DeregisterCalendar(n) => DeregisterGood(r, n);
    case ClearCalendars => NothingIsAcyclic();
    case GetCalendar(_, _, _) =>
  }

  lemma NothingIsAcyclic()
    ensures Acyclic(map[])
  {
    var none: map<Name, Name> := map[];
    forall n: Name ensures Leaves(none, n) {
      assert Follow(none, n, 0) !in none;
    }
  }

  /** Over every sequence of operations the three maps stay disjoint and no alias chain
      runs in a circle, so that no name resolves with the cycle error. */
  lemma {:induction false} AlwaysGood(r: Registry, ops: seq<Op>, n: Name)
    requires Good(r)
    ensures Good(After(r, ops))
    ensures Resolve(After(r, ops), n) != Err(CyclicCalendarAlias)
    decreases |ops|
  {
    if ops != [] {
      AlwaysGood(r, ops[..|ops| - 1], n);
      ExecGood(After(r, ops[..|ops| - 1]), ops[|ops| - 1]);
    }
    assert Leaves(After(r, ops).aliases, n);
  }

  /** An alias is refused for a cycle exactly when the chain from its target, in the
      registry it would be added to, comes back to it.  Refused without force it
      changes nothing; with force only what was registered under that name is gone. */
  lemma CycleRefusedExactly(r: Registry, n: Name, target: Name, force: bool)
    requires Good(r)
    ensures var (after, error) := RegisteredAlias(r, n, target, force);
      && (error == Some(CyclicCalendarAlias) <==>
            (force || !Known(r, n)) && Reaches(Forced(r, n, force).aliases, target, n))
      && (error == Some(CalendarNameCollision(n)) <==> Known(r, n) && !force)
      && (error.Some? && !force ==> after == r)
      && (error.Some? && force ==> after == Deregister(r, n))
      && (error.None? ==> n in after.aliases && after.aliases[n] == target && Deregister(after, n) == Deregister(r, n))
  {
    if Vacate(r, n, force).Ok? {
      var v := Vacate(r, n, force).value;
      VacateGood(r, n, force);
      ClosesCycleExactly(v.aliases, n, target);
      assert v.aliases[n := target] - {n} == v.aliases - {n};
    }
  }

  /** An alias stands for its target: right after it was registered both resolve alike,
      as long as the target is known at all. */
  lemma AliasStandsForTarget(r: Registry, n: Name, target: Name, force: bool)
    requires Good(r) && RegisteredAlias(r, n, target, force).1.None?
    ensures var after := RegisteredAlias(r, n, target, force).0;
      && Resolve(after, n).Ok?
      && (Known(after, target) ==> Resolve(after, n) == Resolve(after, target))
      && (!Known(after, target) ==> Resolve(after, n) == Ok(target))
  {
    var after := RegisteredAlias(r, n, target, force).0;
    AliasGood(r, n, target, force);
    assert Leaves(after.aliases, target);
    var k := EndOf(after.aliases, target);
    assert Follow(after.aliases, n, k + 1) == Follow(after.aliases, target, k);
    EndUnique(after.aliases, n, k + 1);
    if !Known(after, target) {
      assert Follow(after.aliases, target, 0) == target;
      EndUnique(after.aliases, target, 0);
    }
  }

  // ----- what each operation leaves -----

  /** The name alone is gone from the three maps; every other entry stays, and the cache. */
  lemma DeregisterExact(r: Registry, n: Name)
    ensures var after := Deregister(r, n);
      && !Known(after, n) && after.cache == r.cache
      && (forall m :: m != n && m in r.calendars ==> m in after.calendars)
      && (forall m :: m != n && m in r.factories ==> m in after.factories)
      && (forall m :: m != n && m in r.aliases ==> m in after.aliases)
      && (forall m :: m in after.calendars ==> m in r.calendars && after.calendars[m] == r.calendars[m])
      && (forall m :: m in after.factories ==> m in r.factories && after.factories[m] == r.factories[m])
      && (forall m :: m in after.aliases ==> m in r.aliases && after.aliases[m] == r.aliases[m])
  {}

  lemma ClearedExact(r: Registry)
    ensures Cleared(r).cache == r.cache && forall m :: !Known(Cleared(r), m)
  {}

  ghost predicate ReachesWithin(m: map<Name, Name>, a: Name, n: Name, k: nat) {
    exists x: nat :: x <= k && Follow(m, a, x) == n
  }

  lemma ReachesStep(m: map<Name, Name>, a: Name, n: Name, k: nat)
    requires a != n
    ensures k > 0 && a in m ==> (ReachesWithin(m, a, n, k) <==> ReachesWithin(m, m[a], n, k - 1))
    ensures k == 0 || a !in m ==> !ReachesWithin(m, a, n, k)
  {
    if k > 0 && a in m {
      if x: nat :| x <= k && Follow(m, a, x) == n {
        assert Follow(m, m[a], x - 1) == n;
      }
      if x: nat :| x <= k - 1 && Follow(m, m[a], x) == n {
        assert Follow(m, a, x + 1) == n;
      }
    }
  }

  /** Taking out the entry of `n` ends at `n` the chains that led to it, and leaves all
      others as they are. */
  lemma {:induction false} FollowWithout(m: map<Name, Name>, n: Name, a: Name, k: nat)
    ensures Follow(m - {n}, a, k) == if ReachesWithin(m, a, n, k) then n else Follow(m, a, k)
    decreases k
  {
    var without := m - {n};
    if a == n {
      assert 0 <= k && Follow(m, a, 0) == n;
      assert a !in without && Follow(without, a, k) == a;
    } else {
      ReachesStep(m, a, n, k);
      if k > 0 && a in m {
        assert a in without && without[a] == m[a];
        FollowWithout(m, n, m[a], k - 1);
      }
    }
  }

  lemma EndWithout(m: map<Name, Name>, n: Name, a: Name)
    requires Leaves(m, a)
    ensures Leaves(m - {n}, a)
    ensures End(m - {n}, a) == if Reaches(m, a, n) then n else End(m, a)
  {
    var k := EndOf(m, a);
    if Reaches(m, a, n) {
      var v: nat :| Follow(m, a, v) == n;
      FollowWithout(m, n, a, v);
      EndUnique(m - {n}, a, v);
    } else {
      FollowWithout(m, n, a, k);
      EndUnique(m - {n}, a, k);
    }
  }

  /** Registering something else than an alias as `n`: names whose chain led to `n` now
      end there, all others resolve as before. */
  lemma ResolvesAfter(r: Registry, after: Registry, n: Name, m: Name)
    requires Good(r) && after.aliases == r.aliases - {n}
    requires Known(after, n) && (m != n ==> (Known(after, m) <==> Known(r, m)))
    ensures Resolve(after, m) ==
      if m == n || (Known(r, m) && Reaches(r.aliases, m, n)) then Ok(n) else Resolve(r, m)
  {
    assert Leaves(r.aliases, m);
    EndWithout(r.aliases, n, m);
    if m == n {
      assert Follow(r.aliases, n, 0) == n;
    }
  }

  /** `register_calendar`: refused exactly for a known name without force, and then
      nothing changes.  Otherwise that very calendar is what the name gets, whatever a
      factory would make and with an error for any argument, and so is every name whose
      chain led there; every other name is known and resolves as before. */
  lemma InstanceIsGot(r: Registry, n: Name, c: Object, force: bool, m: Name, q: Request, made: Option<Object>)
    requires Good(r)
    ensures var (after, error) := RegisteredCalendar(r, n, c, force);
      && (error == Some(CalendarNameCollision(n)) <==> Known(r, n) && !force)
      && (error.Some? <==> Known(r, n) && !force)
      && (error.Some? ==> after == r)
      && (error.None? ==> Deregister(after, n) == Deregister(r, n))
      && (error.None? && (m == n || (Known(r, m) && Reaches(r.aliases, m, n))) ==>
            Got(after, m, q, made) == Outcome(after,
              if q == Request(NotGiven, NotGiven, None) then Ok(c) else Err(ArgumentsForInstance(n))))
      && (error.None? && m != n ==> (Known(after, m) <==> Known(r, m)))
      && (error.None? && m != n && !(Known(r, m) && Reaches(r.aliases, m, n)) ==> Resolve(after, m) == Resolve(r, m))
  {
    var (after, error) := RegisteredCalendar(r, n, c, force);
    if error.None? {
      assert after.aliases == r.aliases - {n};
      ResolvesAfter(r, after, n, m);
    }
  }

  /** `register_calendar_type`, likewise: what the name gets, if nothing is cached there
      for the same arguments, is what that very factory makes. */
  lemma FactoryIsAsked(r: Registry, n: Name, f: Factory, force: bool, m: Name, q: Request, made: Option<Object>)
    requires Good(r)
    ensures var (after, error) := RegisteredType(r, n, f, force);
      && (error == Some(CalendarNameCollision(n)) <==> Known(r, n) && !force)
      && (error.Some? <==> Known(r, n) && !force)
      && (error.Some? ==> after == r)
      && (error.None? ==> n in after.factories && after.factories[n] == f && Deregister(after, n) == Deregister(r, n))
      && (error.None? && (m == n || (Known(r, m) && Reaches(r.aliases, m, n))) && n !in r.cache
          && q.start != Garbage && q.end != Garbage ==>
            Got(after, m, q, made).result == if made.Some? then Ok(made.value) else Err(FactoryRaised))
      && (error.None? && m != n ==> (Known(after, m) <==> Known(r, m)))
      && (error.None? && m != n && !(Known(r, m) && Reaches(r.aliases, m, n)) ==> Resolve(after, m) == Resolve(r, m))
  {
    var (after, error) := RegisteredType(r, n, f, force);
    if error.None? {
      assert after.aliases == r.aliases - {n};
      ResolvesAfter(r, after, n, m);
    }
  }

  // ----- what get_calendar keeps of its arguments -----

  /** Both stand for the same date, or both for none. */
  predicate SameDate(a: Arg, b: Arg) {
    if a.Parses? then b == a else !b.Parses?
  }

  predicate SameRequest(p: Request, q: Request) {
    SameDate(p.start, q.start) && SameDate(p.end, q.end) && p.side == q.side
  }

  /** Arguments are normalised unless a date does not parse; each bound comes from its own
      argument, something falsy is as good as nothing, and the side stays. */
  lemma NormaliseExact(q: Request)
    ensures Normalise(q).Err? <==> q.start == Garbage || q.end == Garbage
    ensures Normalise(q).Err? ==> Normalise(q).error == NotADate
    ensures Normalise(q).Ok? ==> var kwargs := Normalise(q).value;
      && kwargs.side == q.side
      && (forall d :: kwargs.start == Some(d) <==> q.start == Parses(d))
      && (forall d :: kwargs.end == Some(d) <==> q.end == Parses(d))
      && (kwargs.start == None <==> q.start == NotGiven || q.start == Falsy)
      && (kwargs.end == None <==> q.end == NotGiven || q.end == Falsy)
  {}

  /** Requests with dates that parse normalise alike exactly when they ask the same. */
  lemma SameKwargs(p: Request, q: Request)
    requires Normalise(p).Ok? && Normalise(q).Ok?
    ensures Normalise(p) == Normalise(q) <==> SameRequest(p, q)
  {
    NormaliseExact(p);
    NormaliseExact(q);
  }

  /** After a calendar was built, a request under the same name that asks the same gets
      it again and builds nothing; any other request has the factory asked, and what that
      makes takes the place of the first. */
  lemma CacheAnswersSameRequest(r: Registry, name: Name, p: Request, c: Object, q: Request, made: Option<Object>)
    requires Got(r, name, p, Some(c)).after != r && Normalise(q).Ok?
    ensures var first := Got(r, name, p, Some(c));
      && first.result == Ok(c)
      && var second := Got(first.after, name, q, made);
        if SameRequest(p, q) then second == first
        else if made.None? then second == Outcome(first.after, Err(FactoryRaised))
        else second.result == Ok(made.value) && Got(second.after, name, q, None).result == Ok(made.value)
  {
    SameKwargs(p, q);
  }

  /** A date that does not parse is an error, except for a registered instance, for which
      any argument is one. */
  lemma BadDates(r: Registry, name: Name, q: Request, made: Option<Object>, n: Name)
    requires Resolve(r, name) == Ok(n)
    ensures n in r.calendars ==> Got(r, name, q, made) == Outcome(r,
      if q == Request(NotGiven, NotGiven, None) then Ok(r.calendars[n]) else Err(ArgumentsForInstance(n)))
    ensures n !in r.calendars && (q.start == Garbage || q.end == Garbage) ==>
      Got(r, name, q, made) == Outcome(r, Err(NotADate))
  {
    NormaliseExact(q);
  }
}
