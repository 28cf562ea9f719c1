/** The router's meaning: a flat map from route keys to handlers, looked up
    by exact key, else by the longest prefix route. */
module Routes {
  import opened Options
  import opened RadixTree

  /** A registered handler object, by identity. */
  type Handler = nat

  datatype Handlers = Handlers(
    any: Option<Handler>, get: Option<Handler>, post: Option<Handler>, put: Option<Handler>,
    delete: Option<Handler>, head: Option<Handler>, extra: map<string, Handler>)

  const NO_HANDLERS := Handlers(None, None, None, None, None, None, map[])

  predicate HasHandler(h: Handlers) {
    h.any.Some? || h.get.Some? || h.post.Some? || h.put.Some? || h.delete.Some? || h.head.Some? || h.extra != map[]
  }

  function SetHandler(h: Handlers, verb: string, id: Handler): (r: Handlers)
    ensures HasHandler(r)
  {
    if verb == "GET" then h.(get := Some(id))
    else if verb == "POST" then h.(post := Some(id))
    else if verb == "PUT" then h.(put := Some(id))
    else if verb == "DELETE" then h.(delete := Some(id))
    else if verb == "HEAD" then h.(head := Some(id))
    else
      assert verb in h.extra[verb := id];
      h.(extra := h.extra[verb := id])
  }

  function GetHandler(h: Handlers, verb: string): Option<Handler> {
    if verb == "GET" then h.get
    else if verb == "POST" then h.post
    else if verb == "PUT" then h.put
    else if verb == "DELETE" then h.delete
    else if verb == "HEAD" then (if h.head.Some? then h.head else h.get)
    else if verb in h.extra then Some(h.extra[verb]) else None
  }

  /** A handler set for one method is found for that method; no other method
      changes, except HEAD, which falls back to GET. */
  lemma SetThenGet(h: Handlers, m: string, id: Handler, other: string)
    ensures GetHandler(SetHandler(h, m, id), other)
         == if other == m || (m == "GET" && other == "HEAD" && h.head.None?) then Some(id) else GetHandler(h, other)
  {
  }

  /** The handlers of a node after a registration; no method means any. */
  function WithHandler(h: Handlers, verb: string, id: Handler): (r: Handlers)
    ensures HasHandler(r)
  {
    if verb == "" then h.(any := Some(id)) else SetHandler(h, verb, id)
  }

  /** What is registered under one key. */
  datatype Route = Route(handlers: Handlers, isPrefix: bool)

  const NO_ROUTE := Route(NO_HANDLERS, false)

  function RouteAt(routes: map<string, Route>, k: string): Route {
    if k in routes then routes[k] else NO_ROUTE
  }

  /** A path without its trailing slash, "/" being the empty key. For an
      any-method route the slash asks for prefix matching. */
  function RouteKey(path: string): string {
    if |path| > 0 && path[|path| - 1] == '/' then path[..|path| - 1] else path
  }

  predicate AsksPrefix(path: string) {
    |path| > 0 && path[|path| - 1] == '/'
  }

  /** The flat map after registering a handler for one method. */
  function Register(routes: map<string, Route>, key: string, verb: string, id: Handler): map<string, Route> {
    var r := RouteAt(routes, key);
    routes[key := Route(WithHandler(r.handlers, verb, id), r.isPrefix)]
  }

  /** The flat map after registering a handler for all methods. */
  function RegisterAny(routes: map<string, Route>, path: string, id: Handler): map<string, Route> {
    var r := RouteAt(routes, RouteKey(path));
    routes[RouteKey(path) := Route(r.handlers.(any := Some(id)), r.isPrefix || AsksPrefix(path))]
  }

  /** Registering for all methods is an insertion, then the flag and the
      handler set once more. */
  lemma RegisterAnyInSteps(routes: map<string, Route>, path: string, id: Handler)
    ensures var k := RouteKey(path);
            var r := Register(routes, k, "", id);
            k in r && RegisterAny(routes, path, id)
                   == r[k := Route(r[k].handlers.(any := Some(id)), r[k].isPrefix || AsksPrefix(path))]
  {
  }

  /** The flat map after registering a handler for a named method. An empty
      name is stored as the handler for all methods and as a method of its own. */
  function RegisterFor(routes: map<string, Route>, key: string, verb: string, id: Handler): map<string, Route> {
    var r := RouteAt(routes, key);
    routes[key := Route(SetHandler(WithHandler(r.handlers, verb, id), verb, id), r.isPrefix)]
  }

  /** A handler registered for a method is the one that method finds there. */
  lemma RegisteredIsFound(routes: map<string, Route>, key: string, verb: string, id: Handler)
    ensures var r := RegisterFor(routes, key, verb, id);
            && MethodHandler(r[key].handlers, verb) == Some(id)
            && (verb != "" ==> r == Register(routes, key, verb, id))
            && forall k :: k != key ==> (k in r <==> k in routes) && RouteAt(r, k) == RouteAt(routes, k)
  {
    var h := RouteAt(routes, key).handlers;
    SetThenGet(WithHandler(h, verb, id), verb, id, verb);
    SetTwice(h, verb, id);
  }

  lemma SetTwice(h: Handlers, verb: string, id: Handler)
    ensures SetHandler(SetHandler(h, verb, id), verb, id) == SetHandler(h, verb, id)
  {
    assert h.extra[verb := id][verb := id] == h.extra[verb := id];
  }

  /** The longest prefix route among the prefixes of `p` shorter than `n`. */
  function Fallback(routes: map<string, Route>, p: string, n: nat): (q: Option<string>)
    requires n <= |p| + 1
  {
    if n == 0 then None
    else if p[..n - 1] in routes && routes[p[..n - 1]].isPrefix then Some(p[..n - 1])
    else Fallback(routes, p, n - 1)
  }

  function FlatLookup(routes: map<string, Route>, p: string): Option<string> {
    if p in routes then Some(p) else Fallback(routes, p, |p|)
  }

  lemma {:induction false} FallbackIsLongest(routes: map<string, Route>, p: string, n: nat, q: string)
    requires n <= |p| + 1 && |q| < n && q <= p && q in routes && routes[q].isPrefix
    ensures Fallback(routes, p, n).Some? && |q| <= |Fallback(routes, p, n).value|
  {
    if |q| == n - 1 {
      assert p[..n - 1] == q;
    } else {
      FallbackIsLongest(routes, p, n - 1, q);
    }
  }

  lemma {:induction false} FallbackIsRoute(routes: map<string, Route>, p: string, n: nat)
    requires n <= |p| + 1
    ensures var q := Fallback(routes, p, n);
            q.Some? ==> |q.value| < n && q.value <= p && q.value in routes && routes[q.value].isPrefix
  {
    if n > 0 {
      FallbackIsRoute(routes, p, n - 1);
    }
  }

  /** The flat lookup, declared: the exact route if there is one, else a
      prefix route of which the path is a byte-wise extension and which no
      other such route is longer than; nothing only when there is none. */
  lemma FlatLookupMeaning(routes: map<string, Route>, p: string)
    ensures p in routes ==> FlatLookup(routes, p) == Some(p)
    ensures p !in routes && FlatLookup(routes, p).Some? ==>
              var k := FlatLookup(routes, p).value;
              && k in routes && routes[k].isPrefix && k <= p
              && forall q :: q in routes && routes[q].isPrefix && q <= p ==> |q| <= |k|
    ensures FlatLookup(routes, p).None? ==>
              p !in routes && forall q :: q in routes && routes[q].isPrefix ==> !(q <= p)
  {
    FallbackIsRoute(routes, p, |p|);
    forall q | p !in routes && q in routes && routes[q].isPrefix && q <= p
      ensures Fallback(routes, p, |p|).Some? && |q| <= |Fallback(routes, p, |p|).value|
    {
      assert q != p && |q| < |p|;
      FallbackIsLongest(routes, p, |p|, q);
    }
  }

  /** Lengths at which nothing is registered do not matter. */
  lemma {:induction false} FallbackSkips(routes: map<string, Route>, p: string, a: nat, b: nat)
    requires a <= b <= |p| + 1
    requires forall k :: a <= k < b ==> p[..k] !in routes
    ensures Fallback(routes, p, b) == Fallback(routes, p, a)
  {
    if a < b {
      FallbackSkips(routes, p, a, b - 1);
    }
  }

  // ---- The tree's nodes as the flat map ----

  /** Every node with a handler is the route of its key, every other node is
      blank, and every route has its node. */
  ghost predicate SlotsAre<N>(t: Tree<N>, slots: map<N, Route>, routes: map<string, Route>) {
    && slots.Keys == t.key.Keys
    && (forall n :: n in t.key ==> SlotIs(t, slots, routes, n))
    && (forall k :: k in routes ==> HasNode(t, k))
  }

  predicate SlotIs<N(==)>(t: Tree<N>, slots: map<N, Route>, routes: map<string, Route>, n: N)
    requires n in t.key && slots.Keys == t.key.Keys
  {
    if HasHandler(slots[n].handlers) then t.key[n] in routes && routes[t.key[n]] == slots[n]
    else slots[n] == NO_ROUTE && t.key[n] !in routes
  }

  ghost predicate HasNode<N>(t: Tree<N>, k: string) {
    exists n :: n in t.key && t.key[n] == k
  }

  /** A split moves the node's route to the new node. */
  function MoveSlot<N(==)>(slots: map<N, Route>, n: N, below: N): map<N, Route>
    requires n in slots
  {
    slots[below := slots[n]][n := NO_ROUTE]
  }

  lemma SplitSlots<N>(t: Tree<N>, slots: map<N, Route>, routes: map<string, Route>,
                      n: N, parent: N, j: nat, i: nat, below: N)
    requires Splittable(t, n, parent, j, i, below) && SlotsAre(t, slots, routes)
    ensures SlotsAre(Split(t, n, i, below), MoveSlot(slots, n, below), routes)
  {
    hide TreeOk;
    var s, slots' := Split(t, n, i, below), MoveSlot(slots, n, below);
    SplitKey(t, n, parent, j, i, below);
    assert s.key[n] !in routes by {
      if HasNode(t, s.key[n]) {
        var m :| m in t.key && t.key[m] == s.key[n];
        SplitKeys(t, n, parent, j, i, below, m);
        assert false;
      }
    }
    forall m | m in s.key ensures SlotIs(s, slots', routes, m) {
      assert SlotIs(t, slots, routes, if m == below then n else m);
    }
    forall k | k in routes ensures HasNode(s, k) {
      var m :| m in t.key && t.key[m] == k;
      assert s.key[if m == n then below else m] == k;
    }
  }

  lemma GrowSlots<N>(t: Tree<N>, slots: map<N, Route>, routes: map<string, Route>, n: N, leaf: N, rest: string)
    requires Growable(t, n, leaf, rest) && SlotsAre(t, slots, routes)
    ensures SlotsAre(Grow(t, n, leaf, rest), slots[leaf := NO_ROUTE], routes)
  {
    hide TreeOk;
    var g, slots' := Grow(t, n, leaf, rest), slots[leaf := NO_ROUTE];
    assert g.key[leaf] !in routes by {
      if HasNode(t, g.key[leaf]) {
        var m :| m in t.key && t.key[m] == g.key[leaf];
        NobodyThere(t, n, leaf, rest, m);
        assert false;
      }
    }
    forall m | m in g.key ensures SlotIs(g, slots', routes, m) {
      if m != leaf {
        assert SlotIs(t, slots, routes, m);
      }
    }
    forall k | k in routes ensures HasNode(g, k) {
      var m :| m in t.key && t.key[m] == k;
      assert g.key[m] == k;
    }
  }

  lemma AssignSlot<N>(t: Tree<N>, slots: map<N, Route>, routes: map<string, Route>, n: N, r: Route)
    requires TreeOk(t) && SlotsAre(t, slots, routes) && n in t.key && HasHandler(r.handlers)
    ensures SlotsAre(t, slots[n := r], routes[t.key[n] := r])
  {
    hide TreeOk;
    var slots', routes' := slots[n := r], routes[t.key[n] := r];
    forall m | m in t.key ensures SlotIs(t, slots', routes', m) {
      assert SlotIs(t, slots, routes, m);
      if m != n && t.key[m] == t.key[n] {
        KeysUnique(t, m, n);
        assert false;
      }
    }
    forall k | k in routes' ensures HasNode(t, k) {
      if k != t.key[n] {
        assert HasNode(t, k);
      }
    }
  }

  /** A single node without handlers means no routes, whatever its key. */
  lemma NoRoutes<N>(t: Tree<N>, slots: map<N, Route>, routes: map<string, Route>)
    requires SlotsAre(t, slots, routes) && t.key.Keys == {t.root} && !HasHandler(slots[t.root].handlers)
    ensures routes == map[] && slots[t.root] == NO_ROUTE
  {
    assert forall k :: k in routes ==> HasNode(t, k);
    assert routes.Keys <= {t.key[t.root]};
    assert SlotIs(t, slots, routes, t.root);
  }

  lemma BlankSlot<N>(t: Tree<N>, slots: map<N, Route>)
    requires slots.Keys == t.key.Keys == {t.root} && slots[t.root] == NO_ROUTE
    ensures SlotsAre(t, slots, map[])
  {
  }

  /** The slot of a node is the route of its key. */
  lemma SlotOf<N>(t: Tree<N>, slots: map<N, Route>, routes: map<string, Route>, n: N)
    requires SlotsAre(t, slots, routes) && n in t.key
    ensures n in slots && slots[n] == RouteAt(routes, t.key[n])
    ensures HasHandler(slots[n].handlers) <==> t.key[n] in routes
  {
    assert SlotIs(t, slots, routes, n);
  }

  // ---- What the lookup's walk may conclude ----

  /** The length at which the walk has not looked yet when it reaches `n`. */
  function Start<N(==)>(t: Tree<N>, n: N, parent: N): nat
    requires n != t.root ==> parent in t.key
  {
    if n == t.root then 0 else |t.key[parent]| + 1
  }

  /** No route lies between the parent's key and the node's key. */
  lemma SegmentSkip<N>(t: Tree<N>, slots: map<N, Route>, routes: map<string, Route>, n: N, parent: N, j: nat, p: string)
    requires TreeOk(t) && SlotsAre(t, slots, routes) && HangsAt(t, n, parent, j) && n in t.key && t.key[n] <= p
    requires n != t.root ==> parent in t.key
    ensures Start(t, n, parent) <= |t.key[n]|
    ensures Fallback(routes, p, |t.key[n]|) == Fallback(routes, p, Start(t, n, parent))
  {
    hide TreeOk, Fallback;
    var a, b := Start(t, n, parent), |t.key[n]|;
    if n != t.root {
      ChildKey(t, parent, j);
    }
    forall k | a <= k < b ensures p[..k] !in routes {
      if p[..k] in routes {
        assert HasNode(t, p[..k]);
        var m :| m in t.key && t.key[m] == p[..k];
        assert p[..k] <= t.key[n];
        ThroughSegment(t, n, parent, j, p[..k], m);
        assert false;
      }
    }
    FallbackSkips(routes, p, a, b);
  }

  /** When no node's key on the way to `p` is `a` or longer, the answer is
      what was seen before length `a`. */
  lemma NothingBeyond<N>(t: Tree<N>, slots: map<N, Route>, routes: map<string, Route>, p: string, a: nat)
    requires SlotsAre(t, slots, routes) && a <= |p|
    requires forall m :: m in t.key && t.key[m] <= p ==> |t.key[m]| < a
    ensures FlatLookup(routes, p) == Fallback(routes, p, a)
  {
    hide Fallback;
    forall k | a <= k <= |p| ensures p[..k] !in routes {
      if p[..k] in routes {
        assert false;
      }
    }
    assert p[..|p|] == p;
    FallbackSkips(routes, p, a, |p|);
  }

  /** The segment does not match: nothing else can. */
  lemma Mismatch<N>(t: Tree<N>, slots: map<N, Route>, routes: map<string, Route>, n: N, parent: N, j: nat, p: string)
    requires TreeOk(t) && SlotsAre(t, slots, routes) && HangsAt(t, n, parent, j) && n in t.key && !(t.key[n] <= p)
    requires n != t.root ==> parent in t.key && j < |t.cells[parent].indices| && Before(t.key[parent], p)
                             && t.cells[parent].indices[j] == p[|t.key[parent]|]
    ensures FlatLookup(routes, p) == Fallback(routes, p, Start(t, n, parent))
  {
    hide TreeOk, SlotsAre, FlatLookup, Fallback;
    forall m | m in t.key && t.key[m] <= p ensures |t.key[m]| < Start(t, n, parent) {
      if n == t.root {
        RootBegins(t, m);
        assert false;
      } else {
        OnlyChild(t, n, parent, j, p);
        DeadEndIsEnd(t, parent, p, m);
      }
    }
    NothingBeyond(t, slots, routes, p, Start(t, n, parent));
  }

  lemma OnlyChild<N>(t: Tree<N>, n: N, parent: N, j: nat, p: string)
    requires TreeOk(t) && parent in t.cells && parent in t.key && j < |t.cells[parent].children|
    requires t.cells[parent].children[j] == n && n in t.key && !(t.key[n] <= p)
    requires j < |t.cells[parent].indices| && Before(t.key[parent], p)
    requires t.cells[parent].indices[j] == p[|t.key[parent]|]
    ensures DeadEnd(t, parent, p)
  {
    hide TreeOk;
    CellHere(t, parent);
  }

  /** No child begins with the next character: the walk is over. */
  lemma NoChild<N>(t: Tree<N>, slots: map<N, Route>, routes: map<string, Route>, n: N, p: string)
    requires TreeOk(t) && SlotsAre(t, slots, routes) && n in t.cells && n in t.key && Before(t.key[n], p)
    requires p[|t.key[n]|] !in t.cells[n].indices
    ensures FlatLookup(routes, p) == Fallback(routes, p, |t.key[n]| + 1)
  {
    hide TreeOk, SlotsAre, FlatLookup, Fallback;
    forall m | m in t.key && t.key[m] <= p ensures |t.key[m]| < |t.key[n]| + 1 {
      DeadEndIsEnd(t, n, p, m);
    }
    NothingBeyond(t, slots, routes, p, |t.key[n]| + 1);
  }

  /** Passing a node: it is the new fallback exactly if it is a prefix route. */
  lemma PassNode<N>(t: Tree<N>, slots: map<N, Route>, routes: map<string, Route>, n: N, p: string)
    requires SlotsAre(t, slots, routes) && n in t.key && t.key[n] <= p
    ensures Fallback(routes, p, |t.key[n]| + 1)
         == if HasHandler(slots[n].handlers) && slots[n].isPrefix then Some(t.key[n])
            else Fallback(routes, p, |t.key[n]|)
  {
    SlotOf(t, slots, routes, n);
    assert p[..|t.key[n]|] == t.key[n];
  }

  // ---- What the routes say about the tree's shape ----

  predicate BeginsEvery(p: string, keys: set<string>) {
    forall k :: k in keys ==> p <= k
  }

  /** Some key begins with `k`. */
  ghost predicate Bears(keys: set<string>, k: string) {
    exists q :: q in keys && k <= q
  }

  /** Every node is on the way to a key. */
  ghost predicate Fruitful<N>(t: Tree<N>, keys: set<string>) {
    forall n :: n in t.key ==> Bears(keys, t.key[n])
  }

  /** Nothing longer than `r` begins every key. */
  ghost predicate Tight(r: string, keys: set<string>) {
    forall p :: BeginsEvery(p, keys) ==> |p| <= |r|
  }

  /** The tree has the nodes its keys call for: without any, one empty node;
      else only nodes on the way to a key, under the longest beginning of all. */
  ghost predicate Spanned<N>(t: Tree<N>, keys: set<string>)
    requires t.root in t.key
  {
    if keys == {} then t.key == map[t.root := ""] else Fruitful(t, keys) && Tight(t.key[t.root], keys)
  }

  lemma SplitFruitful<N>(t: Tree<N>, s: Tree<N>, keys: set<string>, n: N, below: N)
    requires Fruitful(t, keys) && n in t.key && n in s.key && s.key[n] <= t.key[n]
    requires s.key == t.key[below := t.key[n]][n := s.key[n]]
    ensures Fruitful(s, keys)
  {
    assert Bears(keys, t.key[n]);
    var q :| q in keys && t.key[n] <= q;
    assert s.key[n] <= q;
    forall m | m in s.key ensures Bears(keys, s.key[m]) {
      if m != n && m != below {
        assert Bears(keys, t.key[m]);
      }
    }
  }

  lemma GrowFruitful<N>(t: Tree<N>, g: Tree<N>, keys: set<string>, leaf: N, k: string)
    requires Fruitful(t, keys) && g.key == t.key[leaf := k]
    ensures Fruitful(g, keys + {k})
  {
    forall m | m in g.key ensures Bears(keys + {k}, g.key[m]) {
      if m == leaf {
        assert k in keys + {k} && k <= k;
      } else {
        assert Bears(keys, t.key[m]);
        var q :| q in keys && t.key[m] <= q;
        assert q in keys + {k};
      }
    }
  }

  lemma MoreFruitful<N>(t: Tree<N>, keys: set<string>, k: string)
    requires Fruitful(t, keys)
    ensures Fruitful(t, keys + {k})
  {
    forall m | m in t.key ensures Bears(keys + {k}, t.key[m]) {
      assert Bears(keys, t.key[m]);
      var q :| q in keys && t.key[m] <= q;
      assert q in keys + {k};
    }
  }

  /** `m` is where `r` and `path` part. */
  predicate Meets(r: string, path: string, m: string) {
    && m <= r && m <= path
    && (m == r || m == path || (|m| < |r| && |m| < |path| && r[|m|] != path[|m|]))
  }

  /** The longest beginning of all keys, cut where a new key parts from it, is
      the longest beginning of all keys with the new one. */
  lemma TightMeets(r: string, keys: set<string>, path: string, m: string)
    requires keys != {} && BeginsEvery(r, keys) && Tight(r, keys) && Meets(r, path, m)
    ensures Tight(m, keys + {path})
  {
    forall p | BeginsEvery(p, keys + {path}) ensures |p| <= |m| {
      assert BeginsEvery(p, keys) && p <= path by {
        assert path in keys + {path};
        assert forall k :: k in keys ==> k in keys + {path};
      }
      var k :| k in keys;
      assert p <= k && r <= k;
      assert p <= r;
      if |m| < |p| {
        assert false;
      }
    }
  }

  // ---- Registrations without wildcards ----

  predicate IsWildcard(path: string, i: nat)
    requires i < |path|
  {
    (path[i] == ':' || path[i] == '*') && (i == 0 || path[i - 1] == '/')
  }

  /** A parameter or catch-all begins at the start of the text or of a segment. */
  predicate HasWildcard(path: string) {
    exists i :: 0 <= i < |path| && IsWildcard(path, i)
  }

  /** `path` leaves the registered keys after `n` characters. */
  ghost predicate Leaves(routes: map<string, Route>, path: string, n: nat)
    requires n < |path|
  {
    (n == 0 || Bears(routes.Keys, path[..n])) && !Bears(routes.Keys, path[..n + 1])
  }

  /** Registering `path` makes no wildcard node: what it adds beyond the
      registered keys has no wildcard in it. */
  ghost predicate Static(routes: map<string, Route>, path: string) {
    forall n :: 0 <= n < |path| && Leaves(routes, path, n) ==> !HasWildcard(path[n..])
  }

  /** A path without the two wildcard characters is always static. */
  lemma PlainIsStatic(routes: map<string, Route>, path: string)
    requires ':' !in path && '*' !in path
    ensures Static(routes, path)
  {
    forall n | 0 <= n < |path| && Leaves(routes, path, n) ensures !HasWildcard(path[n..]) {
      assert forall i :: 0 <= i < |path[n..]| ==> path[n..][i] in path;
    }
  }

  /** A node where the next character has no child is where the path leaves
      the keys. */
  lemma LeavesHere<N>(t: Tree<N>, slots: map<N, Route>, routes: map<string, Route>, n: N, path: string)
    requires TreeOk(t) && SlotsAre(t, slots, routes) && n in t.cells && n in t.key && Before(t.key[n], path)
    requires path[|t.key[n]|] !in t.cells[n].indices && Bears(routes.Keys, t.key[n])
    ensures Leaves(routes, path, |t.key[n]|)
  {
    hide TreeOk, Static;
    var i := |t.key[n]|;
    assert path[..i] == t.key[n];
    if Bears(routes.Keys, path[..i + 1]) {
      var q :| q in routes.Keys && path[..i + 1] <= q;
      assert HasNode(t, q);
      var m :| m in t.key && t.key[m] == q;
      assert q[..i] == path[..i + 1][..i] && q[i] == path[..i + 1][i];
      DeadEndIsEnd(t, n, q, m);
      assert false;
    }
  }

  // ---- The answer for every path, from the routes alone ----

  /** A route whose key begins every registered key. */
  predicate BeginsAll(routes: map<string, Route>, k: string) {
    k in routes && BeginsEvery(k, routes.Keys)
  }

  lemma OneBeginsAll(routes: map<string, Route>, a: string, b: string)
    requires BeginsAll(routes, a) && BeginsAll(routes, b)
    ensures a == b
  {
    assert a <= b && b <= a;
  }

  /** What the empty path and "/" are answered with. */
  ghost function RootRoute(routes: map<string, Route>): (r: Option<string>)
    ensures r.Some? ==> BeginsAll(routes, r.value)
    ensures r.None? ==> forall k :: !BeginsAll(routes, k)
  {
    if exists k :: BeginsAll(routes, k) then
      var k :| BeginsAll(routes, k);
      Some(k)
    else None
  }

  /** The route a path is answered with: the flat lookup of its key, except
      for the empty path and "/". */
  ghost function Answer(routes: map<string, Route>, path: string): (r: Option<string>)
    ensures r.Some? ==> r.value in routes
  {
    if path == "" || path == "/" then RootRoute(routes)
    else
      FlatLookupMeaning(routes, RouteKey(path));
      FlatLookup(routes, RouteKey(path))
  }

  /** In a tree spanned by its routes that is the root node's route. */
  lemma RootIsRootRoute<N>(t: Tree<N>, slots: map<N, Route>, routes: map<string, Route>)
    requires TreeOk(t) && SlotsAre(t, slots, routes) && t.root in t.key && Spanned(t, routes.Keys)
    ensures RootRoute(routes) == if t.key[t.root] in routes then Some(t.key[t.root]) else None
  {
    hide TreeOk, Fruitful;
    var r := t.key[t.root];
    assert BeginsEvery(r, routes.Keys) by {
      RootBeginsRoutes(t, slots, routes);
    }
    RootRouteIs(routes, r);
  }

  lemma RootRouteIs(routes: map<string, Route>, r: string)
    requires BeginsEvery(r, routes.Keys) && (routes.Keys != {} ==> Tight(r, routes.Keys))
    ensures RootRoute(routes) == if r in routes then Some(r) else None
  {
    if r in routes {
      assert BeginsAll(routes, r);
    }
    if RootRoute(routes).Some? {
      var k := RootRoute(routes).value;
      assert k in routes.Keys && r <= k && |k| <= |r|;
      assert k == r;
    }
  }

  lemma RootBeginsRoutes<N>(t: Tree<N>, slots: map<N, Route>, routes: map<string, Route>)
    requires TreeOk(t) && SlotsAre(t, slots, routes)
    ensures t.root in t.key && BeginsEvery(t.key[t.root], routes.Keys)
  {
    hide TreeOk;
    RootHere(t);
    forall k | k in routes.Keys ensures t.key[t.root] <= k {
      assert HasNode(t, k);
      var m :| m in t.key && t.key[m] == k;
      RootBegins(t, m);
    }
  }

  /** The answers are those of the flat map, on every path, exactly when no
      non-empty registered key begins every registered key. */
  lemma AnswerExactly(routes: map<string, Route>)
    ensures (forall path :: Answer(routes, path) == FlatLookup(routes, RouteKey(path)))
       <==> !exists k :: k != "" && BeginsAll(routes, k)
  {
    if k :| k != "" && BeginsAll(routes, k) {
      assert RootRoute(routes).Some?;
      OneBeginsAll(routes, k, RootRoute(routes).value);
      assert !(k <= "");
      assert RouteKey("/") == "" && Answer(routes, "/") != FlatLookup(routes, RouteKey("/"));
    } else {
      if "" in routes {
        assert BeginsAll(routes, "");
      }
      assert RootRoute(routes) == FlatLookup(routes, "");
    }
  }

  /** With only "/api" registered, "/" is answered by "/api", though the flat
      map has nothing for it. */
  lemma RootPathGoesToApi(id: Handler)
    ensures var routes := RegisterAny(map[], "/api", id);
            Answer(routes, "/") == Some("/api") && FlatLookup(routes, RouteKey("/")) == None
  {
    var routes := RegisterAny(map[], "/api", id);
    assert routes.Keys == {"/api"};
    assert BeginsAll(routes, "/api");
    OneBeginsAll(routes, "/api", RootRoute(routes).value);
    assert RouteKey("/") == "";
  }

  /** The handler a path alone selects. */
  function PathHandler(h: Handlers): Option<Handler> {
    if h.any.Some? then h.any else if h.get.Some? then h.get else h.post
  }

  /** The handler a method and a path select. */
  function MethodHandler(h: Handlers, verb: string): Option<Handler> {
    var m := GetHandler(h, verb);
    if m.Some? then m else h.any
  }

  ghost function PathAnswer(routes: map<string, Route>, path: string): Option<Handler> {
    var k := Answer(routes, path);
    if k.None? then None else PathHandler(routes[k.value].handlers)
  }

  ghost function MethodAnswer(routes: map<string, Route>, verb: string, path: string): Option<Handler> {
    var k := Answer(routes, path);
    if k.None? then None else MethodHandler(routes[k.value].handlers, verb)
  }
}
