/**
 * `get_model`: a model name selects one of three pretrained segmentation
 * models, and the result is memoised per name for the life of the process
 * (`functools.lru_cache(maxsize=None)`).
 */
module Registry {

  /** The weights `detect.load_model` can be asked for. */
  datatype ModelId = U2net | U2netp | U2netHumanSeg

  /** A loaded model: which weights it holds, and the identity of the loaded
      object (what the loader returned). */
  datatype Handle = Handle(model: ModelId, instance: nat)

  /** The name mapping: the two recognised names select their own model and any
      other name silently falls back to the general-purpose one. */
  function SelectModel(name: string): (m: ModelId)
    ensures m == U2netp <==> name == "u2netp"
    ensures m == U2netHumanSeg <==> name == "u2net_human_seg"
    ensures m == U2net <==> name != "u2netp" && name != "u2net_human_seg"
  {
    if name == "u2netp" then U2netp
    else if name == "u2net_human_seg" then U2netHumanSeg
    else U2net
  }

  /** Every cached handle holds the model its name selects. */
  ghost predicate Consistent(cache: map<string, Handle>)
  {
    forall name | name in cache :: cache[name].model == SelectModel(name)
  }

  /** One call against the cache. A hit returns the cached handle and leaves the
      cache alone; a miss runs the loader, whose result is `instance`, and caches
      the new handle under the name. */
  function Lookup(cache: map<string, Handle>, name: string, instance: nat): (r: (Handle, map<string, Handle>))
    ensures name in cache ==> r == (cache[name], cache)
    ensures name !in cache ==> r.0 == Handle(SelectModel(name), instance)
    ensures r.1.Keys == cache.Keys + {name} && r.1[name] == r.0
    ensures forall n | n in cache :: n in r.1 && r.1[n] == cache[n]
    ensures Consistent(cache) ==> Consistent(r.1)
  {
    if name in cache then (cache[name], cache)
    else
      var h := Handle(SelectModel(name), instance);
      (h, cache[name := h])
  }

  /** What a run of calls produced: one handle per call, the final cache, and the
      names for which the loader actually ran, in order. */
  datatype Trace = Trace(handles: seq<Handle>, cache: map<string, Handle>, loads: seq<string>)

  /** Serves `calls` (a name and the handle the loader would return for it) in order. */
  function Serve(cache: map<string, Handle>, calls: seq<(string, nat)>): (t: Trace)
    ensures |t.handles| == |calls| && |t.loads| <= |calls|
    decreases |calls|
  {
    if calls == [] then Trace([], cache, [])
    else
      var (h, cache') := Lookup(cache, calls[0].0, calls[0].1);
      var rest := Serve(cache', calls[1..]);
      Trace([h] + rest.handles, rest.cache, (if calls[0].0 in cache then [] else [calls[0].0]) + rest.loads)
  }

  /** The names appearing in `calls`. */
  function Names(calls: seq<(string, nat)>): (names: set<string>)
    ensures forall p | 0 <= p < |calls| :: calls[p].0 in names
    ensures forall n | n in names :: exists p | 0 <= p < |calls| :: calls[p].0 == n
  {
    set p | 0 <= p < |calls| :: calls[p].0
  }

  lemma NamesCons(calls: seq<(string, nat)>)
    requires calls != []
    ensures Names(calls) == {calls[0].0} + Names(calls[1..])
  {
    forall n | n in Names(calls) ensures n in {calls[0].0} + Names(calls[1..]) {
      var p :| 0 <= p < |calls| && calls[p].0 == n;
      if p > 0 { assert calls[1..][p - 1].0 == n; }
    }
  }

  /** Memoisation over any run of calls: each call gets the model its name
      selects; a name already cached gets its cached handle; every call gets the
      handle the final cache holds for its name, so two calls with the same name
      get the identical handle; cached entries never change; and afterwards
      exactly the old names and the requested names are cached. */
  lemma {:induction false} ServeMemoises(cache: map<string, Handle>, calls: seq<(string, nat)>)
    requires Consistent(cache)
    ensures var t := Serve(cache, calls);
      && |t.handles| == |calls|
      && (forall p | 0 <= p < |calls| :: t.handles[p].model == SelectModel(calls[p].0))
      && (forall p | 0 <= p < |calls| :: calls[p].0 in t.cache && t.cache[calls[p].0] == t.handles[p])
      && (forall n | n in cache :: n in t.cache && t.cache[n] == cache[n])
      && t.cache.Keys == cache.Keys + Names(calls)
      && Consistent(t.cache)
    decreases |calls|
  {
    if calls != [] {
      var (h, cache') := Lookup(cache, calls[0].0, calls[0].1);
      ServeMemoises(cache', calls[1..]);
      NamesCons(calls);
      var rest := Serve(cache', calls[1..]);
      var t := Serve(cache, calls);
      assert t.handles == [h] + rest.handles;
      forall p | 0 <= p < |calls|
        ensures calls[p].0 in t.cache && t.cache[calls[p].0] == t.handles[p]
      {
        if p > 0 { assert calls[1..][p - 1] == calls[p]; }
      }
    }
  }

  /** Two calls with the same name get the identical handle, and a name already
      cached gets its cached handle. */
  lemma SameNameSameHandle(cache: map<string, Handle>, calls: seq<(string, nat)>)
    requires Consistent(cache)
    ensures var t := Serve(cache, calls);
      && |t.handles| == |calls|
      && (forall p, q | 0 <= p < q < |calls| && calls[p].0 == calls[q].0 :: t.handles[p] == t.handles[q])
      && (forall p | 0 <= p < |calls| && calls[p].0 in cache :: t.handles[p] == cache[calls[p].0])
  {
    ServeMemoises(cache, calls);
  }

  /** The loader runs at most once per distinct name and never for a name
      already cached: the names it ran for are pairwise distinct and are exactly
      the requested names that were not cached. */
  lemma {:induction false} LoaderRunsOncePerName(cache: map<string, Handle>, calls: seq<(string, nat)>)
    ensures var t := Serve(cache, calls);
      && (forall p, q | 0 <= p < q < |t.loads| :: t.loads[p] != t.loads[q])
      && (forall n :: n in t.loads <==> n in Names(calls) && n !in cache)
    decreases |calls|
  {
    if calls != [] {
      var name := calls[0].0;
      var (h, cache') := Lookup(cache, name, calls[0].1);
      LoaderRunsOncePerName(cache', calls[1..]);
      NamesCons(calls);
      var rest := Serve(cache', calls[1..]);
      var t := Serve(cache, calls);
      if name !in cache {
        assert t.loads == [name] + rest.loads;
        assert name !in rest.loads;
        forall p, q | 0 <= p < q < |t.loads| ensures t.loads[p] != t.loads[q] {
          if p > 0 { assert t.loads[p] == rest.loads[p - 1] && t.loads[q] == rest.loads[q - 1]; }
          else { assert t.loads[q] in rest.loads; }
        }
      } else {
        assert t.loads == rest.loads;
      }
    }
  }

  /** An unknown name and "u2net" get equivalent handles (the same weights, loaded
      separately because the cache is keyed by name), and a repeated "u2net"
      gets the identical handle without a new load. */
  lemma FallbackScenario()
    ensures var t := Serve(map[], [("unknown_name", 1), ("u2net", 2), ("u2net", 3)]);
      && t.handles == [Handle(U2net, 1), Handle(U2net, 2), Handle(U2net, 2)]
      && t.loads == ["unknown_name", "u2net"]
  {
  }

  /** The process-wide memo cache of `get_model`. `loads` records, in order, the
      names for which the loader ran. */
  class ModelRegistry {
    var cache: map<string, Handle>
    ghost var loads: seq<string>

    ghost predicate Valid()
      reads this
    {
      && Consistent(cache)
      && (forall p, q | 0 <= p < q < |loads| :: loads[p] != loads[q])
      && (forall name :: name in cache <==> name in loads)
    }

    constructor ()
      ensures Valid() && cache == map[] && loads == []
    {
      cache := map[];
      loads := [];
    }

    /** `get_model(name)`; `instance` is what the loader returns if it runs. */
    method GetModel(name: string, instance: nat) returns (h: Handle)
      requires Valid()
      modifies this
      ensures Valid()
      ensures h.model == SelectModel(name)
      ensures (h, cache) == Lookup(old(cache), name, instance)
      ensures name in old(cache) ==> h == old(cache)[name] && cache == old(cache) && loads == old(loads)
      ensures name !in old(cache) ==>
        h == Handle(SelectModel(name), instance) && cache == old(cache)[name := h] && loads == old(loads) + [name]
    {
      if name in cache {
        h := cache[name];
      } else {
        h := Handle(SelectModel(name), instance);
        cache := cache[name := h];
        loads := loads + [name];
      }
    }
  }
}
