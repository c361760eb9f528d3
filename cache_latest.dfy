/** cache_latest(f): a decorator for methods of an owner object. Each call of
    the wrapper creates the owner's `_cache` dictionary if it is missing,
    then runs f; what f returns is stored under f's name and returned. */
module CacheLatest {

  /** Whether the owner has a `_cache` attribute, and if so its contents. */
  datatype Option<T> = None | Some(value: T)

  /** The dictionary the wrapper writes into: the existing one, or a new
      empty one when the owner has none yet. */
  function Existing<V>(cache: Option<map<string, V>>): map<string, V>
  {
    if cache.Some? then cache.value else map[]
  }

  /** The `_cache` dictionary after one call of the wrapper around a method
      named `name` that returned `result`. */
  function Store<V>(cache: Option<map<string, V>>, name: string, result: V): (c: map<string, V>)
    ensures name in c && c[name] == result
    ensures c.Keys == Existing(cache).Keys + {name}
    ensures forall k :: k in Existing(cache) && k != name ==> c[k] == Existing(cache)[k]
    ensures cache == None ==> c == map[name := result]
  {
    Existing(cache)[name := result]
  }

  /** How the call of the wrapped method ended: it returned a value, or it
      raised (and the wrapper propagates the exception). */
  datatype Outcome<V> = Returned(value: V) | Raised

  /** The `_cache` attribute after a sequence of wrapper calls, each given as
      the wrapped method's name and how its call ended. The dictionary is
      created before the wrapped method runs, so a raising call leaves it in
      place without an entry for that call. */
  function Replay<V>(cache: Option<map<string, V>>, calls: seq<(string, Outcome<V>)>): Option<map<string, V>>
  {
    if calls == [] then cache
    else
      var before, last := Replay(cache, calls[..|calls| - 1]), calls[|calls| - 1];
      match last.1
      case Returned(v) => Some(Store(before, last.0, v))
      case Raised => Some(Existing(before))
  }

  /** What the most recent call of the method named `name` that returned
      gave back, if any such call was made. */
  function Latest<V>(calls: seq<(string, Outcome<V>)>, name: string): Option<V>
  {
    if calls == [] then None
    else if calls[|calls| - 1].0 == name && calls[|calls| - 1].1.Returned? then
      Some(calls[|calls| - 1].1.value)
    else Latest(calls[..|calls| - 1], name)
  }

  /** After any sequence of calls, the cache holds for every method that
      returned at least once what its latest returning call gave back, and
      the entries of the other methods are those it held before. The
      attribute exists as soon as one call has been made, raising or not. */
  lemma {:induction false} ReplayKeepsLatest<V>(cache: Option<map<string, V>>, calls: seq<(string, Outcome<V>)>, name: string)
    ensures calls != [] ==> Replay(cache, calls).Some?
    ensures Latest(calls, name).Some? ==>
      Replay(cache, calls).Some? && name in Replay(cache, calls).value &&
      Replay(cache, calls).value[name] == Latest(calls, name).value
    ensures Latest(calls, name).None? ==>
      (name in Existing(Replay(cache, calls)) <==> name in Existing(cache)) &&
      (name in Existing(cache) ==> Existing(Replay(cache, calls))[name] == Existing(cache)[name])
  {
    if calls != [] {
      ReplayKeepsLatest(cache, calls[..|calls| - 1], name);
    }
  }

  /** A later call of the same method replaces the earlier result outright. */
  lemma LatestOverwrites<V>(cache: Option<map<string, V>>, name: string, earlier: V, later: V)
    ensures Store(Some(Store(cache, name, earlier)), name, later) == Store(cache, name, later)
  {
  }

  /** An owner object of the decorated methods, as far as the decorator sees it. */
  class Owner<V> {
    var cache: Option<map<string, V>>

    /** A freshly constructed owner has no `_cache` attribute. */
    constructor ()
      ensures cache == None
    {
      cache := None;
    }

    /** The wrapper, called on this owner for a method named `name` whose
        call ended with `outcome`. It returns what the method returned, or
        propagates its exception; either way `_cache` exists afterwards. */
    method Call(name: string, outcome: Outcome<V>) returns (r: Outcome<V>)
      modifies this
      ensures r == outcome
      ensures outcome.Returned? ==> cache == Some(Store(old(cache), name, outcome.value))
      ensures outcome.Raised? ==> cache == Some(Existing(old(cache)))
    {
      if cache.None? {
        cache := Some(map[]);
      }
      match outcome
      case Raised =>
        r := Raised;
      case Returned(v) =>
        cache := Some(cache.value[name := v]);
        r := Returned(cache.value[name]);
    }
  }
}
