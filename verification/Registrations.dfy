/** What the router promises, told from the registrations alone: which handler
    a path, and a method with a path, are answered with. */
module Registrations {
  import opened Options
  import opened Routes

  /** A call of `Add` or of `AddRoute`. */
  datatype Registration = ForAll(path: string, id: Handler) | ForMethod(verb: string, path: string, id: Handler)

  /** The key a call registers under; a trailing slash counts only in `Add`. */
  function KeyOf(r: Registration): string {
    if r.ForAll? then RouteKey(r.path) else r.path
  }

  function Called(routes: map<string, Route>, r: Registration): map<string, Route> {
    if r.ForAll? then RegisterAny(routes, r.path, r.id) else RegisterFor(routes, r.path, r.verb, r.id)
  }

  function RoutesAfter(regs: seq<Registration>): map<string, Route> {
    if regs == [] then map[] else
      Called(RoutesAfter(regs[..|regs| - 1]), regs[|regs| - 1])
  }

  lemma NoRegistrations()
    ensures RoutesAfter([]) == map[]
  {
  }

  lemma AfterOne(regs: seq<Registration>, n: nat)
    requires n < |regs|
    ensures RoutesAfter(regs[..n + 1]) == Called(RoutesAfter(regs[..n]), regs[n])
  {
    assert regs[..n + 1][..n] == regs[..n];
  }

  /** The handler last registered under key `k` for all methods. */
  function LastForAll(regs: seq<Registration>, k: string): Option<Handler> {
    if regs == [] then None else
      var r := regs[|regs| - 1];
      if KeyOf(r) == k && (r.ForAll? || r.verb == "") then Some(r.id) else LastForAll(regs[..|regs| - 1], k)
  }

  /** The handler last registered under key `k` for the method `verb`. */
  function LastForMethod(regs: seq<Registration>, k: string, verb: string): Option<Handler> {
    if regs == [] then None else
      var r := regs[|regs| - 1];
      if r.ForMethod? && r.path == k && r.verb == verb then Some(r.id) else LastForMethod(regs[..|regs| - 1], k, verb)
  }

  /** Some call registered under key `k`. */
  ghost predicate Registers(regs: seq<Registration>, k: string) {
    exists i :: 0 <= i < |regs| && KeyOf(regs[i]) == k
  }

  /** Some `Add` of `k` with a slash behind it. */
  ghost predicate RegistersPrefix(regs: seq<Registration>, k: string) {
    exists i :: 0 <= i < |regs| && regs[i].ForAll? && regs[i].path == k + "/"
  }

  /** A method's own handler, without the way from HEAD to GET. */
  function OwnHandler(h: Handlers, verb: string): Option<Handler> {
    if verb == "HEAD" then h.head else GetHandler(h, verb)
  }

  /** What is known under a key is what the calls say. */
  ghost predicate KeyTold(regs: seq<Registration>, routes: map<string, Route>, k: string) {
    && (k in routes <==> Registers(regs, k))
    && (RouteAt(routes, k).isPrefix <==> RegistersPrefix(regs, k))
    && RouteAt(routes, k).handlers.any == LastForAll(regs, k)
    && forall verb :: OwnHandler(RouteAt(routes, k).handlers, verb) == LastForMethod(regs, k, verb)
  }

  lemma RegistersMore(regs: seq<Registration>, r: Registration, k: string)
    ensures Registers(regs + [r], k) <==> Registers(regs, k) || KeyOf(r) == k
    ensures RegistersPrefix(regs + [r], k) <==> RegistersPrefix(regs, k) || (r.ForAll? && r.path == k + "/")
  {
    hide RouteKey;
    var more := regs + [r];
    assert more[|regs|] == r;
    if Registers(regs, k) {
      var i :| 0 <= i < |regs| && KeyOf(regs[i]) == k;
      assert more[i] == regs[i];
    }
    if RegistersPrefix(regs, k) {
      var i :| 0 <= i < |regs| && regs[i].ForAll? && regs[i].path == k + "/";
      assert more[i] == regs[i];
    }
  }

  /** A path asks for its key as a prefix exactly if it is the key and a slash. */
  lemma SlashAsks(path: string, k: string)
    ensures RouteKey(path) == k && AsksPrefix(path) <==> path == k + "/"
  {
    if path == k + "/" {
      assert path[|path| - 1] == '/' && path[..|path| - 1] == k;
    }
    if AsksPrefix(path) {
      assert path == path[..|path| - 1] + "/";
    }
  }

  lemma LastMore(regs: seq<Registration>, r: Registration, k: string, verb: string)
    ensures LastForAll(regs + [r], k)
         == if KeyOf(r) == k && (r.ForAll? || r.verb == "") then Some(r.id) else LastForAll(regs, k)
    ensures LastForMethod(regs + [r], k, verb)
         == if r.ForMethod? && r.path == k && r.verb == verb then Some(r.id) else LastForMethod(regs, k, verb)
  {
    hide RouteKey;
    assert (regs + [r])[..|regs|] == regs;
  }

  /** One call under key `k` changes what is known there as the calls say. */
  lemma CallTold(regs: seq<Registration>, r: Registration, routes: map<string, Route>, k: string)
    requires KeyTold(regs, routes, k)
    ensures KeyTold(regs + [r], Called(routes, r), k)
  {
    RegistersMore(regs, r, k);
    SlashAsks(r.path, k);
    LastMore(regs, r, k, "");
    hide Registers, RegistersPrefix, LastForAll, LastForMethod, RouteKey, AsksPrefix, SetHandler, OwnHandler;
    var routes' := Called(routes, r);
    forall verb
      ensures OwnHandler(RouteAt(routes', k).handlers, verb) == LastForMethod(regs + [r], k, verb)
    {
      MethodTold(regs, r, routes, routes', k, verb);
    }
    AnyTold(r, routes, routes', k);
  }

  lemma AnyTold(r: Registration, routes: map<string, Route>, routes': map<string, Route>, k: string)
    requires routes' == Called(routes, r)
    ensures RouteAt(routes', k).handlers.any
         == if KeyOf(r) == k && (r.ForAll? || r.verb == "") then Some(r.id) else RouteAt(routes, k).handlers.any
  {
    hide RouteKey, AsksPrefix;
  }

  lemma MethodTold(regs: seq<Registration>, r: Registration, routes: map<string, Route>, routes': map<string, Route>,
                   k: string, verb: string)
    requires KeyTold(regs, routes, k)
    requires routes' == Called(routes, r)
    ensures OwnHandler(RouteAt(routes', k).handlers, verb) == LastForMethod(regs + [r], k, verb)
  {
    hide Registers, RegistersPrefix, LastForAll, LastForMethod, RouteKey, AsksPrefix, OwnHandler, SetHandler;
    LastMore(regs, r, k, verb);
    var h := RouteAt(routes, k).handlers;
    OwnAny(h, r.id, verb);
    if r.ForMethod? {
      OwnSet(h, r.verb, r.id, verb);
      OwnSet(WithHandler(h, r.verb, r.id), r.verb, r.id, verb);
    }
  }

  lemma OwnAny(h: Handlers, id: Handler, verb: string)
    ensures OwnHandler(h.(any := Some(id)), verb) == OwnHandler(h, verb)
  {
  }

  lemma OwnSet(h: Handlers, m: string, id: Handler, verb: string)
    ensures OwnHandler(SetHandler(h, m, id), verb) == if verb == m then Some(id) else OwnHandler(h, verb)
  {
  }

  lemma {:induction false} RoutesTold(regs: seq<Registration>, k: string)
    ensures KeyTold(regs, RoutesAfter(regs), k)
  {
    if regs != [] {
      var before, r := regs[..|regs| - 1], regs[|regs| - 1];
      RoutesTold(before, k);
      hide KeyTold, Called;
      CallTold(before, r, RoutesAfter(before), k);
      assert before + [r] == regs;
    }
  }

  /** A method match at a key: the handler last registered there for the method,
      for HEAD without one that for GET, else the one last given for all
      methods; nothing only if there is none of these. */
  lemma MethodLaw(regs: seq<Registration>, k: string, verb: string)
    requires k in RoutesAfter(regs)
    ensures MethodHandler(RoutesAfter(regs)[k].handlers, verb)
         == if LastForMethod(regs, k, verb).Some? then LastForMethod(regs, k, verb)
            else if verb == "HEAD" && LastForMethod(regs, k, "GET").Some? then LastForMethod(regs, k, "GET")
            else LastForAll(regs, k)
  {
    hide RoutesAfter, LastForMethod, LastForAll, Registers, RegistersPrefix;
    RoutesTold(regs, k);
    var h := RoutesAfter(regs)[k].handlers;
    assert OwnHandler(h, "GET") == h.get && OwnHandler(h, verb) == LastForMethod(regs, k, verb);
  }

  /** A match by path alone: the handler last given for all methods, else that
      for GET, else that for POST. */
  lemma PathLaw(regs: seq<Registration>, k: string)
    requires k in RoutesAfter(regs)
    ensures PathHandler(RoutesAfter(regs)[k].handlers)
         == if LastForAll(regs, k).Some? then LastForAll(regs, k)
            else if LastForMethod(regs, k, "GET").Some? then LastForMethod(regs, k, "GET")
            else LastForMethod(regs, k, "POST")
  {
    hide RoutesAfter, LastForMethod, LastForAll, Registers, RegistersPrefix;
    RoutesTold(regs, k);
    var h := RoutesAfter(regs)[k].handlers;
    assert OwnHandler(h, "GET") == h.get && OwnHandler(h, "POST") == h.post;
  }

  /** Which key answers a path, the root's apart: its own if it is registered,
      else the longest one added with a slash that the path extends; none only if
      there is none. */
  lemma KeyLaw(regs: seq<Registration>, path: string)
    requires path != "" && path != "/"
    ensures var p, r := RouteKey(path), Answer(RoutesAfter(regs), path);
            && (Registers(regs, p) ==> r == Some(p))
            && (!Registers(regs, p) && r.Some? ==>
                  RegistersPrefix(regs, r.value) && r.value <= p
                  && forall q :: RegistersPrefix(regs, q) && q <= p ==> |q| <= |r.value|)
            && (r.None? ==> !Registers(regs, p) && forall q :: RegistersPrefix(regs, q) ==> !(q <= p))
  {
    hide RoutesAfter, FlatLookup, Registers, RegistersPrefix, LastForAll, LastForMethod, OwnHandler;
    var routes, p := RoutesAfter(regs), RouteKey(path);
    FlatLookupMeaning(routes, p);
    forall q: string ensures KeyTold(regs, routes, q) {
      RoutesTold(regs, q);
    }
    assert KeyTold(regs, routes, p);
    forall q | RegistersPrefix(regs, q) ensures q in routes && routes[q].isPrefix {
      assert KeyTold(regs, routes, q);
    }
    if FlatLookup(routes, p).Some? {
      assert KeyTold(regs, routes, FlatLookup(routes, p).value);
    }
  }

  /** After `Add(x + "/", h)` every path that extends `x` is answered by `h`, if
      no key longer than `x` answers it. */
  lemma SlashServesBelow(regs: seq<Registration>, x: string, id: Handler, path: string)
    requires x <= RouteKey(path) && path != "" && path != "/"
    requires forall k :: k <= RouteKey(path) && |x| < |k| ==>
               !RegistersPrefix(regs, k) && (k == RouteKey(path) ==> !Registers(regs, k))
    ensures PathAnswer(RoutesAfter(regs + [ForAll(x + "/", id)]), path) == Some(id)
  {
    var all, p := regs + [ForAll(x + "/", id)], RouteKey(path);
    SlashAsks(x + "/", x);
    hide RoutesAfter, RouteKey, AsksPrefix, PathHandler;
    KeyLaw(all, path);
    forall k ensures Registers(all, k) <==> Registers(regs, k) || k == x
             ensures RegistersPrefix(all, k) <==> RegistersPrefix(regs, k) || k == x
    {
      RegistersMore(regs, ForAll(x + "/", id), k);
      SameSlash(x, k);
    }
    LastMore(regs, ForAll(x + "/", id), x, "");
    hide Registers, RegistersPrefix, LastForAll, LastForMethod;
    var r := Answer(RoutesAfter(all), path);
    assert r == Some(x) by {
      assert RegistersPrefix(all, x) && x <= p;
      if p == x {
        assert Registers(all, p);
      } else {
        assert !Registers(all, p) && RegistersPrefix(all, r.value) && |x| <= |r.value|;
        assert r.value[..|x|] == x;
      }
    }
    PathLaw(all, x);
  }

  /** The key that answers the path with key `p`, told from the calls. */
  ghost predicate Answers(regs: seq<Registration>, p: string, k: string) {
    if Registers(regs, p) then k == p
    else RegistersPrefix(regs, k) && k <= p && forall q :: RegistersPrefix(regs, q) && q <= p ==> |q| <= |k|
  }

  /** The two matches for every path but the root's: the handler of the key that
      answers it, and nothing only if there is no such key. */
  lemma MatchLaw(regs: seq<Registration>, verb: string, path: string, k: string)
    requires path != "" && path != "/"
    ensures var routes, p := RoutesAfter(regs), RouteKey(path);
            && (Answers(regs, p, k) ==>
                  && MethodAnswer(routes, verb, path)
                     == (if LastForMethod(regs, k, verb).Some? then LastForMethod(regs, k, verb)
                         else if verb == "HEAD" && LastForMethod(regs, k, "GET").Some?
                         then LastForMethod(regs, k, "GET")
                         else LastForAll(regs, k))
                  && PathAnswer(routes, path)
                     == (if LastForAll(regs, k).Some? then LastForAll(regs, k)
                         else if LastForMethod(regs, k, "GET").Some? then LastForMethod(regs, k, "GET")
                         else LastForMethod(regs, k, "POST")))
            && (!Registers(regs, p) && (forall q :: RegistersPrefix(regs, q) ==> !(q <= p)) ==>
                  MethodAnswer(routes, verb, path) == PathAnswer(routes, path) == None)
  {
    hide RoutesAfter, RouteKey, Answer, PathHandler, MethodHandler, LastForAll, LastForMethod;
    hide Registers, RegistersPrefix;
    KeyLaw(regs, path);
    var r, p := Answer(RoutesAfter(regs), path), RouteKey(path);
    if Answers(regs, p, k) {
      assert r.Some?;
      if !Registers(regs, p) {
        assert |r.value| == |k|;
        assert r.value == p[..|k|] == k;
      }
      hide Answers;
      MethodLaw(regs, k, verb);
      PathLaw(regs, k);
    }
  }

  lemma SameSlash(x: string, k: string)
    ensures x + "/" == k + "/" <==> x == k
  {
    assert (x + "/")[..|x|] == x && (k + "/")[..|k|] == k;
  }
}
