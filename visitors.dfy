/**
 * The visitor counter (src/lib/server/visitors.ts): a memoised record of the
 * total and the set of known visitor ids, loaded once and persisted on every
 * new visitor, and a map of last-seen instants pruned to a one-minute window.
 * The clock is a parameter `now`; the stored file is a parameter `stored`
 * (`None` when reading or decoding it fails), and saving is not modelled.
 */
module Visitors {
  import opened Wrappers

  /** The persisted record `{ total, known }`. */
  datatype Stats = Stats(total: int, known: set<string>)

  /** What `visit` returns. */
  datatype Counts = Counts(current: nat, total: int)

  /** Visitors seen within this many milliseconds count as active. */
  const ActiveWindow := 60000

  /** The record `load` falls back to when the file cannot be read. */
  const Fallback := Stats(0, {})

  /** A record whose total counts its known ids (the file may hold any record). */
  predicate Consistent(s: Stats) {
    s.total == |s.known|
  }

  /** The record after `visit(id)`: a new id is counted once and remembered. */
  function Bump(s: Stats, id: string): Stats {
    if id in s.known then s else Stats(s.total + 1, s.known + {id})
  }

  /** The active map after the pruning loop: only entries seen within the window stay. */
  function Pruned(active: map<string, int>, now: int): map<string, int> {
    map k | k in active && now - active[k] <= ActiveWindow :: active[k]
  }

  class Counter {
    /** The memoised record (`cache`), absent until the first `load`. */
    var cache: Option<Stats>
    /** Last-seen instant of each visitor id. */
    var active: map<string, int>

    constructor ()
      ensures cache == None && active == map[]
    {
      cache := None;
      active := map[];
    }

    /** `load()`: the memoised record, or the stored one (or the fallback) on the first call. */
    method Load(stored: Option<Stats>) returns (s: Stats)
      modifies this
      ensures old(cache).Some? ==> s == old(cache).value && cache == old(cache)
      ensures old(cache).None? ==> s == (if stored.Some? then stored.value else Fallback) && cache == Some(s)
      ensures active == old(active)
    {
      if cache.Some? {
        return cache.value;
      }
      if stored.Some? {
        cache := Some(stored.value);
      } else {
        cache := Some(Fallback);
      }
      return cache.value;
    }

    /**
     * `visit(id)`: count a new id, stamp `id` with `now`, then prune the
     * entries that are older than the window.
     */
    method Visit(id: string, now: int, stored: Option<Stats>) returns (r: Counts)
      modifies this
      ensures var loaded := if old(cache).Some? then old(cache).value
        else if stored.Some? then stored.value else Fallback;
        cache == Some(Bump(loaded, id))
      ensures active == Pruned(old(active)[id := now], now)
      ensures r == Counts(|active.Keys|, cache.value.total)
    {
      var data := Load(stored);
      if id !in data.known {
        data := Stats(data.total + 1, data.known + {id});
        cache := Some(data);
      }
      assert cache == Some(data);
      active := active[id := now];
      ghost var stamped := active;
      var pending := active.Keys;
      while pending != {}
        invariant pending <= stamped.Keys
        invariant cache == Some(data)
        invariant forall k :: k in active <==> k in stamped && (k in pending || now - stamped[k] <= ActiveWindow)
        invariant forall k :: k in active ==> active[k] == stamped[k]
        decreases pending
      {
        var k :| k in pending;
        if now - active[k] > ActiveWindow {
          active := active - {k};
        }
        pending := pending - {k};
      }
      assert active == Pruned(stamped, now);
      return Counts(|active.Keys|, data.total);
    }
  }

  /** A new id adds exactly one to the total and joins the known ids. */
  lemma BumpNew(s: Stats, id: string)
    requires id !in s.known
    ensures Bump(s, id).total == s.total + 1 && Bump(s, id).known == s.known + {id}
  {
  }

  /** A known id changes nothing. */
  lemma BumpKnown(s: Stats, id: string)
    requires id in s.known
    ensures Bump(s, id) == s
  {
  }

  /** Counting keeps the total equal to the number of known ids. */
  lemma BumpConsistent(s: Stats, id: string)
    requires Consistent(s)
    ensures Consistent(Bump(s, id))
    ensures id in Bump(s, id).known
  {
  }

  /** The record after visits by `ids`, in order. */
  function Visits(s: Stats, ids: seq<string>): Stats {
    if ids == [] then s else Bump(Visits(s, ids[..|ids| - 1]), ids[|ids| - 1])
  }

  /** The ids of a sequence, as a set. */
  function IdSet(ids: seq<string>): set<string> {
    if ids == [] then {} else IdSet(ids[..|ids| - 1]) + {ids[|ids| - 1]}
  }

  lemma {:induction false} IdSetMembers(ids: seq<string>, x: string)
    ensures x in IdSet(ids) <==> x in ids
  {
    if ids != [] {
      IdSetMembers(ids[..|ids| - 1], x);
      assert ids == ids[..|ids| - 1] + [ids[|ids| - 1]];
    }
  }

  /**
   * Starting from the fallback, any sequence of visits keeps the total equal
   * to the number of ids seen, and the known ids are exactly those ids.
   */
  lemma {:induction false} VisitsConsistent(ids: seq<string>)
    ensures Consistent(Visits(Fallback, ids))
    ensures Visits(Fallback, ids).known == IdSet(ids)
  {
    if ids != [] {
      var init := ids[..|ids| - 1];
      VisitsConsistent(init);
      BumpConsistent(Visits(Fallback, init), ids[|ids| - 1]);
    }
  }

  /**
   * After a visit at `now`, the visitor is active at `now`, and an entry
   * stays exactly when it was (or is now) present and lies within the window.
   */
  lemma PrunedWindow(active: map<string, int>, id: string, now: int, k: string)
    ensures var m := Pruned(active[id := now], now);
      id in m && m[id] == now
    ensures var m := Pruned(active[id := now], now);
      k in m <==> (k == id || (k in active && now - active[k] <= ActiveWindow))
    ensures var m := Pruned(active[id := now], now);
      k in m ==> now - m[k] <= ActiveWindow && (k != id ==> m[k] == active[k])
  {
  }
}
