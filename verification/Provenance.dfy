/** Where the calendar comes from that `get_calendar` returns. */
module Provenance {
  import opened Arrays
  import opened Aliases
  import opened Registration

  /** The operation calls the factory registered as `n`, with `kwargs`, and gets `c`. */
  ghost predicate Builds(r: Registry, op: Op, n: Name, kwargs: Kwargs, c: Object, f: Factory) {
    && op.GetCalendar?
    && Resolve(r, op.name) == Ok(n) && n !in r.calendars
    && Normalise(op.request) == Ok(kwargs)
    && !(n in r.cache && r.cache[n].kwargs == kwargs)
    && n in r.factories && r.factories[n] == f
    && op.made == Some(c)
  }

  /** The operation registers the factory `g` as `n`. */
  ghost predicate Registers(r: Registry, op: Op, n: Name, g: Factory) {
    op.RegisterType? && op.name == n && op.factory == g && Vacate(r, n, op.force).Ok?
  }

  /** In the run `ops` from `r`, operation `j` built `c`, and no later one built `n` anew. */
  ghost predicate LastBuilt(r: Registry, ops: seq<Op>, j: nat, n: Name, kwargs: Kwargs, c: Object, f: Factory) {
    && j < |ops|
    && Builds(After(r, ops[..j]), ops[j], n, kwargs, c, f)
    && forall i, k2: Kwargs, c2: Object, f2: Factory :: j < i < |ops| ==>
      !Builds(After(r, ops[..i]), ops[i], n, k2, c2, f2)
  }

  /** Operation `i` registers the factory `g` as `n`. */
  ghost predicate RegistersAt(r: Registry, ops: seq<Op>, i: nat, n: Name, g: Factory) {
    i < |ops| && Registers(After(r, ops[..i]), ops[i], n, g)
  }

  /** After operation `j`, whenever `n` gets another factory than `f`, it gets `f` back
      later.  A run that never replaces the factory is of this kind. */
  ghost predicate NotReplaced(r: Registry, ops: seq<Op>, j: nat, n: Name, f: Factory) {
    forall i, g :: j < i < |ops| && RegistersAt(r, ops, i, n, g) && g != f ==>
      exists k :: i < k < |ops| && RegistersAt(r, ops, k, n, f)
  }

  lemma CacheChanges(r: Registry, op: Op)
    ensures var t := Exec(r, op);
      t.cache == r.cache
      || exists m: Name, kwargs, c, f :: Builds(r, op, m, kwargs, c, f) && t.cache == r.cache[m := Cached(c, kwargs)]
  {
    if op.GetCalendar? && Resolve(r, op.name).Ok? {
      var m := Resolve(r, op.name).value;
      if Normalise(op.request).Ok? && m in r.factories && op.made.Some? {
        var kwargs := Normalise(op.request).value;
        if m !in r.calendars && !(m in r.cache && r.cache[m].kwargs == kwargs) {
          assert Builds(r, op, m, kwargs, op.made.value, r.factories[m]);
        }
      }
    }
  }

  lemma BuildsFills(r: Registry, op: Op, n: Name, kwargs: Kwargs, c: Object, f: Factory)
    requires Builds(r, op, n, kwargs, c, f)
    ensures Exec(r, op).cache == r.cache[n := Cached(c, kwargs)]
  {}

  /** A cache entry is what the last build under that name made. */
  lemma {:induction false} EntryWasBuilt(r: Registry, ops: seq<Op>, n: Name) returns (j: nat, f: Factory)
    requires r.cache == map[] && n in After(r, ops).cache
    ensures var entry := After(r, ops).cache[n]; LastBuilt(r, ops, j, n, entry.kwargs, entry.calendar, f)
    decreases |ops|
  {
    var last := |ops| - 1;
    var before, op := After(r, ops[..last]), ops[last];
    var entry := After(r, ops).cache[n];
    if kwargs, c, g :| Builds(before, op, n, kwargs, c, g) {
      BuildsFills(before, op, n, kwargs, c, g);
      j, f := last, g;
    } else {
      CacheChanges(before, op);
      assert n in before.cache && before.cache[n] == entry;
      j, f := EntryWasBuilt(r, ops[..last], n);
      forall i, k2: Kwargs, c2: Object, f2: Factory | j < i < |ops|
        ensures !Builds(After(r, ops[..i]), ops[i], n, k2, c2, f2)
      {
        if i < last {
          assert ops[..last][..i] == ops[..i];
        }
      }
      assert ops[..last][..j] == ops[..j];
    }
  }

  /** Without an operation that registers `n`, its factory stays or goes. */
  lemma FactoryChanges(r: Registry, op: Op, n: Name)
    requires n in Exec(r, op).factories
    requires op.RegisterType? ==> !Registers(r, op, n, op.factory)
    ensures n in r.factories && r.factories[n] == Exec(r, op).factories[n]
  {}

  lemma PrefixRegisters(r: Registry, ops: seq<Op>, n: Name, i: nat, g: Factory)
    requires i < |ops| - 1
    ensures RegistersAt(r, ops[..|ops| - 1], i, n, g) <==> RegistersAt(r, ops, i, n, g)
  {
    assert ops[..|ops| - 1][..i] == ops[..i];
  }

  /** When the last operation leaves `n` alone, it does not matter to NotReplaced. */
  lemma PrefixNotReplaced(r: Registry, ops: seq<Op>, j: nat, n: Name, f: Factory)
    requires j < |ops| - 1
    requires var last := |ops| - 1; forall g :: !RegistersAt(r, ops, last, n, g)
    ensures NotReplaced(r, ops[..|ops| - 1], j, n, f) <==> NotReplaced(r, ops, j, n, f)
  {
    var last := |ops| - 1;
    forall i: nat, g | i < last
      ensures RegistersAt(r, ops[..last], i, n, g) <==> RegistersAt(r, ops, i, n, g)
    {
      PrefixRegisters(r, ops, n, i, g);
    }
  }

  /** The factory now registered as `n` is the one that built at operation `j` exactly
      when it was not replaced for good since. */
  lemma {:induction false} CurrentExactly(r: Registry, ops: seq<Op>, j: nat, n: Name, f: Factory)
    requires j < |ops| && ops[j].GetCalendar?
    requires var at := After(r, ops[..j]); n in at.factories && at.factories[n] == f
    requires n in After(r, ops).factories
    ensures After(r, ops).factories[n] == f <==> NotReplaced(r, ops, j, n, f)
    decreases |ops|
  {
    var last := |ops| - 1;
    var before, op := After(r, ops[..last]), ops[last];
    if j == last {
      assert ops[..j] == ops[..last];
    } else if op.RegisterType? && Registers(before, op, n, op.factory) {
      assert RegistersAt(r, ops, last, n, op.factory);
    } else {
      FactoryChanges(before, op, n);
      assert ops[..last][..j] == ops[..j];
      CurrentExactly(r, ops[..last], j, n, f);
      PrefixNotReplaced(r, ops, j, n, f);
    }
  }

  /** `get_calendar` for a name that resolves to no registered instance either builds
      the calendar now, from the factory registered as the resolved name, or returns
      what an earlier `get_calendar` built under that resolved name, asked for the same
      dates and side, from the factory then registered, since when nothing was
      built under it; that factory is still the registered one exactly when it was not
      replaced for good. */
  lemma ReturnsWhatWasBuilt(r: Registry, ops: seq<Op>, name: Name, q: Request, made: Option<Object>, n: Name,
    kwargs: Kwargs, c: Object)
    requires r.cache == map[]
    requires var t := After(r, ops);
      && Resolve(t, name) == Ok(n) && n !in t.calendars && Normalise(q) == Ok(kwargs)
      && Got(t, name, q, made).result == Ok(c)
    ensures var t := After(r, ops);
      || (exists f :: Builds(t, GetCalendar(name, q, made), n, kwargs, c, f))
      || (exists j: nat, f :: LastBuilt(r, ops, j, n, kwargs, c, f) && SameRequest(ops[j].request, q)
            && (n in t.factories ==> (t.factories[n] == f <==> NotReplaced(r, ops, j, n, f))))
  {
    var t := After(r, ops);
    if n in t.cache && t.cache[n].kwargs == kwargs {
      var j, f := EntryWasBuilt(r, ops, n);
      SameKwargs(ops[j].request, q);
      if n in t.factories {
        CurrentExactly(r, ops, j, n, f);
      }
    } else {
      assert Builds(t, GetCalendar(name, q, made), n, kwargs, c, t.factories[n]);
    }
  }

  lemma AfterOne(r: Registry, ops: seq<Op>, op: Op)
    ensures After(r, ops + [op]) == Exec(After(r, ops), op)
  {
    assert (ops + [op])[..|ops|] == ops;
  }

  const NOTHING := Registry(map[], map[], map[], map[])

  /** Register the factory `f` as `n` and have it build `c`. */
  function Built(n: Name, f: Factory, c: Object, q: Request): seq<Op> {
    [RegisterType(n, f, false)] + [GetCalendar(n, q, Some(c))]
  }

  lemma BuiltIs(n: Name, f: Factory, c: Object, q: Request)
    requires Normalise(q).Ok?
    ensures After(NOTHING, Built(n, f, c, q))
      == NOTHING.(factories := map[n := f], cache := map[n := Cached(c, Normalise(q).value)])
  {
    AfterOne(NOTHING, [], RegisterType(n, f, false));
    AfterOne(NOTHING, [RegisterType(n, f, false)], GetCalendar(n, q, Some(c)));
    var one := After(NOTHING, [RegisterType(n, f, false)]);
    assert [] + [RegisterType(n, f, false)] == [RegisterType(n, f, false)];
    assert one == NOTHING.(factories := map[n := f]);
    Canonical(one, n);
  }

  /** Deregistering does not clear the cache: with another factory registered under an
      already fabricated name, `get_calendar` still returns the first one's calendar. */
  lemma ReplacedFactoryIsNotAsked(n: Name, f: Factory, g: Factory, c: Object, d: Object, q: Request)
    requires f != g && Normalise(q).Ok?
    ensures var t := After(NOTHING, Built(n, f, c, q) + [RegisterType(n, g, true)]);
      && t.factories == map[n := g]
      && Got(t, n, q, Some(d)) == Outcome(t, Ok(c))
  {
    BuiltIs(n, f, c, q);
    AfterOne(NOTHING, Built(n, f, c, q), RegisterType(n, g, true));
    Canonical(After(NOTHING, Built(n, f, c, q) + [RegisterType(n, g, true)]), n);
  }

  // ----- names without a calendar -----

  /** `name` leads to a registered instance or to a factory. */
  ghost predicate Represents(r: Registry, name: Name) {
    var n := Resolve(r, name);
    n.Ok? && (n.value in r.calendars || n.value in r.factories)
  }

  /** A calendar built with these arguments is still cached where `name` leads to. */
  ghost predicate StillCached(r: Registry, name: Name, q: Request) {
    var n, kwargs := Resolve(r, name), Normalise(q);
    n.Ok? && kwargs.Ok? && n.value in r.cache && r.cache[n.value].kwargs == kwargs.value
  }

  /** InvalidCalendarName is raised exactly for a name that is not known, or whose chain
      ends at neither an instance nor a factory, with dates that parse and nothing
      cached there for the same arguments. */
  lemma InvalidNameExactly(r: Registry, name: Name, q: Request, made: Option<Object>)
    ensures var result := Got(r, name, q, made).result;
      result.Err? && result.error.InvalidCalendarName? <==>
        || !Known(r, name)
        || (Resolve(r, name).Ok? && !Represents(r, name) && Normalise(q).Ok? && !StillCached(r, name, q))
  {}

  /** So where no calendar is registered for an acyclic name, and the dates parse, the
      documented error is raised unless a calendar is still cached, and then that is
      returned. */
  lemma RaisesUnlessCached(r: Registry, name: Name, q: Request, made: Option<Object>)
    requires Good(r) && !Represents(r, name) && Normalise(q).Ok?
    ensures var result := Got(r, name, q, made).result;
      if StillCached(r, name, q) then result == Ok(r.cache[Resolve(r, name).value].calendar)
      else result.Err? && result.error.InvalidCalendarName?
  {
    assert Leaves(r.aliases, name);
    InvalidNameExactly(r, name, q, made);
  }

  /** It happens: an alias outlives its factory, and still gets the factory's calendar,
      while the name itself is refused. */
  lemma DanglingAliasReturnsCached(n: Name, a: Name, f: Factory, c: Object, q: Request)
    requires a != n && Normalise(q).Ok?
    ensures var t := After(NOTHING, Built(n, f, c, q) + [RegisterAlias(a, n, false)] + [DeregisterCalendar(n)]);
      && t.calendars == map[] && t.factories == map[]
      && Got(t, a, q, None) == Outcome(t, Ok(c))
      && Got(t, n, q, None) == Outcome(t, Err(InvalidCalendarName(n)))
  {
    var ops := Built(n, f, c, q);
    BuiltIs(n, f, c, q);
    AfterOne(NOTHING, ops, RegisterAlias(a, n, false));
    AfterOne(NOTHING, ops + [RegisterAlias(a, n, false)], DeregisterCalendar(n));
    var aliases: map<Name, Name> := map[a := n];
    assert Follow(aliases, n, 0) == n;
    assert Follow(aliases, a, 1) == Follow(aliases, n, 0);
    EndUnique(aliases, a, 1);
    var two := After(NOTHING, ops + [RegisterAlias(a, n, false)]);
    assert two == After(NOTHING, ops).(aliases := aliases);
    var t := After(NOTHING, ops + [RegisterAlias(a, n, false)] + [DeregisterCalendar(n)]);
    assert t == NOTHING.(aliases := aliases, cache := map[n := Cached(c, Normalise(q).value)]);
  }

  /** A name that is no alias is its own canonical name. */
  lemma Canonical(r: Registry, n: Name)
    requires n !in r.aliases && Known(r, n)
    ensures Resolve(r, n) == Ok(n)
  {
    assert Follow(r.aliases, n, 0) == n;
    EndUnique(r.aliases, n, 0);
  }

  /** A second call with the same arguments returns the same object and asks nobody. */
  lemma SecondCallIsTheSame(r: Registry, name: Name, q: Request, made: Option<Object>, again: Option<Object>)
    requires Got(r, name, q, made).result.Ok?
    ensures var first := Got(r, name, q, made);
      Got(first.after, name, q, again) == first
  {}
}
