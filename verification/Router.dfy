/** The compressed prefix-tree router, changed in place: nodes are split and
    relinked on registration and walked on lookup. Its tree is mirrored by a
    snapshot, and its meaning by a flat map of routes. */
module Router {
  import opened Options
  import opened RadixTree
  import opened Routes
  import opened Registrations

  class Node {
    var path: string
    var indices: string
    var children: seq<Node>
    var handlers: Handlers
    var isPrefixMatch: bool

    constructor ()
      ensures path == "" && indices == "" && children == [] && handlers == NO_HANDLERS && !isPrefixMatch
    {
      path, indices, children, handlers, isPrefixMatch := "", "", [], NO_HANDLERS, false;
    }

    /** The lower half of a split node. */
    constructor Taking(path: string, indices: string, children: seq<Node>, handlers: Handlers, isPrefixMatch: bool)
      ensures this.path == path && this.indices == indices && this.children == children
      ensures this.handlers == handlers && this.isPrefixMatch == isPrefixMatch
    {
      this.path, this.indices, this.children := path, indices, children;
      this.handlers, this.isPrefixMatch := handlers, isPrefixMatch;
    }

    /** The upper half of a split node: one child and no handlers. */
    method BecomeFork(front: string, child: Node)
      requires child.path != ""
      modifies this
      ensures path == front && indices == [old(child.path)[0]] && children == [child]
      ensures handlers == NO_HANDLERS && !isPrefixMatch
    {
      indices := [child.path[0]];
      path, children, handlers, isPrefixMatch := front, [child], NO_HANDLERS, false;
    }
  }

  method LongestCommonPrefix(a: string, b: string) returns (i: nat)
    ensures i <= |a| && i <= |b| && a[..i] == b[..i]
    ensures i == |a| || i == |b| || a[i] != b[i]
  {
    i := 0;
    while i < |a| && i < |b| && a[i] == b[i]
      invariant i <= |a| && i <= |b| && a[..i] == b[..i]
    {
      i := i + 1;
    }
  }

  class Router {
    const root: Node
    ghost var tree: Tree<Node>
    ghost var slots: map<Node, Route>
    ghost var routes: map<string, Route>

    ghost predicate Valid()
      reads this, tree.cells.Keys
    {
      tree.root == root && Agrees(tree, slots) && TreeOk(tree) && SlotsAre(tree, slots, routes)
    }

    /** Between registrations the routes determine the tree's shape. */
    ghost predicate Ready()
      reads this, tree.cells.Keys
    {
      Valid() && root in tree.key && Spanned(tree, routes.Keys)
    }

    constructor ()
      ensures Ready() && routes == map[] && fresh(tree.cells.Keys)
    {
      var node := new Node();
      root := node;
      tree := Single(node, "");
      slots := map[node := NO_ROUTE];
      routes := map[];
      SingleOk(node, "");
    }

    /** The fields of every node of `t` are what the snapshot says. */
    ghost predicate Agrees(t: Tree<Node>, s: map<Node, Route>)
      reads t.cells.Keys
    {
      && t.root == root && s.Keys == t.cells.Keys
      && (forall n :: n in t.cells ==>
            t.cells[n] == Cell(n.path, n.indices, n.children) && s[n] == Route(n.handlers, n.isPrefixMatch))
    }

    /** Take over a new snapshot. */
    ghost method Adopt(t: Tree<Node>, s: map<Node, Route>, r: map<string, Route>)
      requires Agrees(t, s) && TreeOk(t) && SlotsAre(t, s, r)
      modifies this
      ensures Valid() && tree == t && slots == s && routes == r
    {
      hide TreeOk, SlotsAre;
      tree, slots, routes := t, s, r;
    }

    /** Cuts the node's segment; a new node takes over its end, its children
        and its handlers. */
    method SplitNode(node: Node, i: nat, ghost parent: Node, ghost j: nat) returns (below: Node)
      requires Valid() && node in tree.cells && HangsAt(tree, node, parent, j)
      requires i < |node.path| && (node != root ==> 0 < i)
      modifies this, node
      ensures Valid() && routes == old(routes)
      ensures fresh(below) && tree.cells.Keys == old(tree.cells.Keys) + {below}
      ensures node.path == old(node.path)[..i] && HangsAt(tree, node, parent, j)
      ensures node in tree.key && node in old(tree.key) && old(tree.key[node]) == tree.key[node] + old(node.path)[i..]
      ensures tree.key == old(tree.key)[below := old(tree.key[node])][node := tree.key[node]]
    {
      hide TreeOk, SlotsAre, HangsAt;
      below := new Node.Taking(node.path[i..], node.indices, node.children, node.handlers, node.isPrefixMatch);
      ghost var t, s := SplitPlan(tree, slots, routes, node, parent, j, i, below);
      node.BecomeFork(node.path[..i], below);
      forall n | n in t.cells
        ensures t.cells[n] == Cell(n.path, n.indices, n.children) && s[n] == Route(n.handlers, n.isPrefixMatch)
      {
        if n != node && n != below {
          assert n in tree.cells;
        }
      }
      Adopt(t, s, routes);
    }

    /** Hangs a new node with the segment `rest` under `node`. */
    method AddChild(node: Node, rest: string) returns (leaf: Node)
      requires Valid() && node in tree.cells && rest != "" && rest[0] !in node.indices && !HasWildcard(rest)
      modifies this, node
      ensures Valid() && routes == old(routes)
      ensures fresh(leaf) && tree.cells.Keys == old(tree.cells.Keys) + {leaf}
      ensures node in old(tree.key) && tree.key == old(tree.key)[leaf := old(tree.key[node]) + rest]
    {
      hide TreeOk, SlotsAre;
      leaf := new Node();
      leaf.path := rest;
      ghost var t, s := GrowPlan(tree, slots, routes, node, leaf, rest);
      node.indices := node.indices + [rest[0]];
      node.children := node.children + [leaf];
      forall n | n in t.cells
        ensures t.cells[n] == Cell(n.path, n.indices, n.children) && s[n] == Route(n.handlers, n.isPrefixMatch)
      {
        if n != node && n != leaf {
          assert n in tree.cells;
        }
      }
      Adopt(t, s, routes);
    }

    /** Gives a node its handlers; its key becomes a route. */
    method Assign(node: Node, handlers: Handlers, isPrefix: bool)
      requires Valid() && node in tree.cells && HasHandler(handlers)
      modifies this, node
      ensures Valid() && tree == old(tree)
      ensures node in tree.key && routes == old(routes)[tree.key[node] := Route(handlers, isPrefix)]
    {
      hide TreeOk, SlotsAre;
      SameKeys(tree);
      AssignSlot(tree, slots, routes, node, Route(handlers, isPrefix));
      node.handlers, node.isPrefixMatch := handlers, isPrefix;
      Adopt(tree, slots[node := Route(handlers, isPrefix)], routes[tree.key[node] := Route(handlers, isPrefix)]);
    }

    /** The first segment goes into the still empty root. */
    method Plant(path: string)
      requires Valid() && root.path == "" && root.children == [] && !HasHandler(root.handlers) && !HasWildcard(path)
      modifies this, root
      ensures Valid() && routes == old(routes) == map[] && tree.cells.Keys == old(tree.cells.Keys)
      ensures tree.key == map[root := path]
    {
      hide TreeOk, SlotsAre;
      RootHere(tree);
      ghost var t, s := PlantPlan(tree, slots, routes, path);
      root.path := path;
      Adopt(t, s, routes);
    }

    /** Matches the node's segment against `rest`, cutting it where they part. */
    method Consume(node: Node, rest: string, ghost parent: Node, ghost j: nat, ghost path: string) returns (i: nat)
      requires Valid() && AtNode(tree, node, parent, j, rest, path)
      requires root in tree.key && Fruitful(tree, routes.Keys)
      modifies this, node
      ensures Valid() && routes == old(routes)
      ensures forall n :: n in tree.cells ==> n in old(tree.cells) || fresh(n)
      ensures i <= |rest| && node in tree.cells && node in tree.key && tree.key[node] + rest[i..] == path
      ensures node != root ==> i > 0
      ensures root in tree.key && Fruitful(tree, routes.Keys)
      ensures node == root ==> Meets(old(tree.key[root]), path, tree.key[root])
      ensures node != root ==> tree.key[root] == old(tree.key[root])
    {
      hide TreeOk, SlotsAre, Fruitful, HangsAt, Agrees, Meets;
      SegmentHere(node);
      i := LongestCommonPrefix(node.path, rest);
      ghost var segment := node.path;
      ghost var front := Front(tree, node, parent, j, rest, path, i);
      if i < |node.path| {
        ghost var t := tree;
        var below := SplitNode(node, i, parent, j);
        SameTail(tree.key[node], front, segment[i..]);
        SplitFruitful(t, tree, routes.Keys, node, below);
      } else {
        assert front + segment[i..] == front;
      }
    }

    lemma SegmentHere(node: Node)
      requires Agrees(tree, slots) && node in tree.cells
      ensures tree.cells[node].path == node.path
    {
    }

    /** Where the indices send the first character of what is left. */
    method FindChild(node: Node, c: char) returns (k: nat)
      ensures k <= |node.indices| && c !in node.indices[..k]
      ensures k < |node.indices| ==> node.indices[k] == c
    {
      k := 0;
      while k < |node.indices| && node.indices[k] != c
        invariant k <= |node.indices| && c !in node.indices[..k]
      {
        k := k + 1;
      }
    }

    /** The node of `path`, made on the way if it is not there. */
    method Locate(path: string) returns (node: Node)
      requires Ready() && Static(routes, path)
      modifies this, tree.cells.Keys
      ensures Valid() && routes == old(routes)
      ensures forall n :: n in tree.cells ==> n in old(tree.cells) || fresh(n)
      ensures node in tree.cells && node in tree.key && tree.key[node] == path
      ensures root in tree.key && Spanned(tree, routes.Keys + {path})
    {
      hide TreeOk, SlotsAre, Spanned, Static;
      RootHere(tree);
      if root.path == "" && root.children == [] && !HasHandler(root.handlers) {
        First(path);
        RootHere(tree);
        return root;
      }
      BareRoutes(tree, slots, routes);
      node := Extend(path);
    }

    method First(path: string)
      requires Ready() && Static(routes, path)
      requires root.path == "" && root.children == [] && !HasHandler(root.handlers)
      modifies this, root
      ensures Valid() && routes == old(routes) && tree.cells.Keys == old(tree.cells.Keys)
      ensures tree.key == map[root := path] && Spanned(tree, routes.Keys + {path})
    {
      hide TreeOk, SlotsAre, Fruitful, Tight, Static;
      RootHere(tree);
      NothingYet(tree, slots, routes, path);
      Plant(path);
      OnlyKey(tree, path);
      assert routes.Keys + {path} == {path};
    }

    method Extend(path: string) returns (node: Node)
      requires Ready() && Static(routes, path) && routes.Keys != {}
      modifies this, tree.cells.Keys
      ensures Valid() && routes == old(routes)
      ensures forall n :: n in tree.cells ==> n in old(tree.cells) || fresh(n)
      ensures node in tree.cells && node in tree.key && tree.key[node] == path
      ensures root in tree.key && Spanned(tree, routes.Keys + {path})
    {
      hide TreeOk, SlotsAre, Fruitful, Tight, Static, Meets, BeginsEvery, Agrees;
      RootBeginsRoutes(tree, slots, routes);
      ghost var r := tree.key[root];
      node := Walk(path);
      TightMeets(r, routes.Keys, path, tree.key[root]);
    }

    /** After a full match of the node's segment: the walk ends here, or at a
        new child, or goes on at the child the indices name. */
    method Onward(node: Node, rest: string, ghost path: string) returns (done: bool, next: Node, ghost j: nat)
      requires Valid() && node in tree.cells && node in tree.key && tree.key[node] + rest == path
      requires root in tree.key && Fruitful(tree, routes.Keys) && Static(routes, path)
      modifies this, node
      ensures Valid() && routes == old(routes)
      ensures forall n :: n in tree.cells ==> n in old(tree.cells) || fresh(n)
      ensures next in tree.cells && next in tree.key
      ensures done ==> tree.key[next] == path
      ensures !done ==> next != root && AtNode(tree, next, node, j, rest, path)
      ensures root in tree.key && tree.key[root] == old(tree.key[root])
      ensures Fruitful(tree, if done then routes.Keys + {path} else routes.Keys)
    {
      hide TreeOk, SlotsAre, AtNode, Fruitful, Static, HasWildcard;
      next, j := node, 0;
      if rest == "" {
        assert tree.key[node] + rest == tree.key[node];
        MoreFruitful(tree, routes.Keys, path);
        return true, next, j;
      }
      var k := FindChild(node, rest[0]);
      if k == |node.indices| {
        assert node.indices[..k] == node.indices;
        AddsNoWildcard(tree, slots, routes, node, rest, path);
        ghost var t := tree;
        next := AddChild(node, rest);
        GrowFruitful(t, tree, routes.Keys, next, path);
        return true, next, j;
      }
      SameKeys(tree);
      AtChild(tree, node, k, rest, path);
      return false, node.children[k], k;
    }

    method Walk(path: string) returns (node: Node)
      requires Valid() && root in tree.key && Fruitful(tree, routes.Keys) && Static(routes, path)
      modifies this, tree.cells.Keys
      ensures Valid() && routes == old(routes)
      ensures forall n :: n in tree.cells ==> n in old(tree.cells) || fresh(n)
      ensures node in tree.cells && node in tree.key && tree.key[node] == path
      ensures root in tree.key && Meets(old(tree.key[root]), path, tree.key[root])
      ensures Fruitful(tree, routes.Keys + {path})
    {
      hide TreeOk, SlotsAre, AtNode, Agrees, Fruitful, Static, Meets;
      AtRoot(tree, path);
      node := root;
      var rest := path;
      ghost var parent, j: nat := root, 0;
      while true
        invariant Valid() && routes == old(routes)
        invariant forall n :: n in tree.cells ==> n in old(tree.cells) || fresh(n)
        invariant node in tree.cells && AtNode(tree, node, parent, j, rest, path)
        invariant root in tree.key && Fruitful(tree, routes.Keys)
        invariant if node == root then tree.key[root] == old(tree.key[root])
                  else Meets(old(tree.key[root]), path, tree.key[root])
        decreases |rest|, if node == root then 1 else 0
      {
        var i := Consume(node, rest, parent, j, path);
        rest := rest[i..];
        parent := node;
        var done;
        done, node, j := Onward(node, rest, path);
        if done {
          return;
        }
      }
    }

    method Insert(path: string, handler: Handler, verb: string) returns (node: Node)
      requires Ready() && Static(routes, path)
      modifies this, tree.cells.Keys
      ensures Ready() && routes == Register(old(routes), path, verb, handler)
      ensures forall n :: n in tree.cells ==> n in old(tree.cells) || fresh(n)
      ensures node in tree.cells && node in tree.key && tree.key[node] == path
    {
      hide TreeOk, SlotsAre, WithHandler, Spanned, Static;
      node := Locate(path);
      SlotOf(tree, slots, routes, node);
      Assign(node, WithHandler(node.handlers, verb, handler), node.isPrefixMatch);
      assert routes.Keys == old(routes.Keys) + {path};
    }

    /** Gives a node its handler for every method, and marks it for prefixes. */
    method Mark(node: Node, handler: Handler, prefix: bool)
      requires Valid() && node in tree.cells && node in tree.key
      modifies this, node
      ensures Valid() && tree == old(tree)
      ensures var r := RouteAt(old(routes), tree.key[node]);
              routes == old(routes)[tree.key[node] := Route(r.handlers.(any := Some(handler)), r.isPrefix || prefix)]
    {
      hide TreeOk, SlotsAre;
      SlotOf(tree, slots, routes, node);
      Assign(node, node.handlers.(any := Some(handler)), node.isPrefixMatch || prefix);
    }

    /** Registers a handler for every method. */
    method Add(path: string, handler: Handler)
      requires Ready() && Static(routes, RouteKey(path))
      modifies this, tree.cells.Keys
      ensures Ready() && routes == RegisterAny(old(routes), path, handler)
      ensures forall n :: n in tree.cells ==> n in old(tree.cells) || fresh(n)
    {
      var key, prefix := path, false;
      if |path| > 1 && path[|path| - 1] == '/' {
        key, prefix := path[..|path| - 1], true;
      } else if path == "/" {
        key, prefix := "", true;
      }
      assert key == RouteKey(path) && prefix == AsksPrefix(path);
      hide *;
      Place(path, key, prefix, handler);
    }

    /** Registers a handler for every method under a key. */
    method Place(ghost path: string, key: string, prefix: bool, handler: Handler)
      requires Ready() && key == RouteKey(path) && prefix == AsksPrefix(path) && Static(routes, key)
      modifies this, tree.cells.Keys
      ensures Ready() && routes == RegisterAny(old(routes), path, handler)
      ensures forall n :: n in tree.cells ==> n in old(tree.cells) || fresh(n)
    {
      hide TreeOk, SlotsAre, Spanned, Static, Agrees, Register, RegisterAny, RouteKey, AsksPrefix;
      RegisterAnyInSteps(routes, path, handler);
      var node := Insert(key, handler, "");
      ghost var keys := routes.Keys;
      Mark(node, handler, prefix);
      assert routes.Keys == keys;
    }

    /** Gives a node its handler for one method. */
    method SetVerb(node: Node, handler: Handler, verb: string)
      requires Valid() && node in tree.cells && node in tree.key
      modifies this, node
      ensures Valid() && tree == old(tree)
      ensures var r := RouteAt(old(routes), tree.key[node]);
              routes == old(routes)[tree.key[node] := Route(SetHandler(r.handlers, verb, handler), r.isPrefix)]
    {
      hide TreeOk, SlotsAre, SetHandler;
      SlotOf(tree, slots, routes, node);
      Assign(node, SetHandler(node.handlers, verb, handler), node.isPrefixMatch);
    }

    /** Registers a handler for one method. */
    method AddRoute(verb: string, path: string, handler: Handler)
      requires Ready() && Static(routes, path)
      modifies this, tree.cells.Keys
      ensures Ready() && routes == RegisterFor(old(routes), path, verb, handler)
      ensures forall n :: n in tree.cells ==> n in old(tree.cells) || fresh(n)
    {
      hide TreeOk, SlotsAre, Spanned, Static, Agrees, SetHandler, WithHandler;
      var node := Insert(path, handler, verb);
      ghost var keys := routes.Keys;
      SetVerb(node, handler, verb);
      assert routes.Keys == keys;
    }

    /** The key a node stands for, none for no node. */
    ghost function KeyOf(node: Node?): Option<string>
      requires node == null || node in tree.key
      reads this
    {
      if node == null then None else Some(tree.key[node])
    }

    /** The lookup of `p` stands at `node`; `fallback` is the longest prefix
        route it has passed. */
    ghost predicate Tracks(node: Node, rest: string, fallback: Node?, p: string, parent: Node, j: nat)
      reads this
    {
      && Walking(tree, node, parent, j, rest, p)
      && (node != tree.root ==> parent in tree.key)
      && (fallback == null || fallback in tree.key)
      && KeyOf(fallback) == Fallback(routes, p, Start(tree, node, parent))
    }

    /** One visit of the walk: the answer, or the child to go on at. */
    method Visit(node: Node, rest: string, fallback: Node?, ghost p: string, ghost parent: Node, ghost j: nat)
      returns (done: bool, next: Node?, rest': string, fallback': Node?, ghost j': nat)
      requires Valid() && Tracks(node, rest, fallback, p, parent, j)
      ensures next == null || next in tree.key
      ensures done ==> KeyOf(next) == FlatLookup(routes, p)
      ensures !done ==> next != null && next != root && Tracks(next, rest', fallback', p, node, j')
      ensures !done ==> |rest'| < |rest| || (node == root && |rest'| == |rest|)
    {
      hide TreeOk, SlotsAre, Fallback;
      done, next, rest', fallback', j' := true, fallback, rest, fallback, 0;
      if |rest| < |node.path| || rest[..|node.path|] != node.path {
        SegmentUnmatched(tree, node, parent, j, rest, p);
        Mismatch(tree, slots, routes, node, parent, j, p);
        return;
      }
      SegmentMatched(tree, node, parent, j, rest, p);
      SegmentSkip(tree, slots, routes, node, parent, j, p);
      rest' := rest[|node.path|..];
      if rest' == "" {
        next := Arrive(node, fallback, p);
        return;
      }
      PassNode(tree, slots, routes, node, p);
      if node.isPrefixMatch && HasHandler(node.handlers) {
        fallback', next := node, node;
      }
      var k := FindChild(node, rest'[0]);
      if k == |node.indices| {
        assert node.indices[..k] == node.indices;
        NoChild(tree, slots, routes, node, p);
        return;
      }
      ChildWalk(tree, node, k, rest', p);
      done, next, j' := false, node.children[k], k;
    }

    /** The whole path is matched: the node itself if it has handlers. */
    method Arrive(node: Node, fallback: Node?, ghost p: string) returns (r: Node?)
      requires Valid() && node in tree.cells && node in tree.key && tree.key[node] + "" == p
      requires (fallback == null || fallback in tree.key) && KeyOf(fallback) == Fallback(routes, p, |p|)
      ensures (r == null || r in tree.key) && KeyOf(r) == FlatLookup(routes, p)
    {
      hide TreeOk, SlotsAre, Fallback;
      SlotOf(tree, slots, routes, node);
      assert p == tree.key[node];
      r := if HasHandler(node.handlers) then node else fallback;
    }

    /** Any registrations into a new router: its routes are those of the calls. */
    method SetUp(regs: seq<Registration>)
      requires Ready() && routes == map[]
      requires forall n :: 0 <= n < |regs| ==> Static(RoutesAfter(regs[..n]), Registrations.KeyOf(regs[n]))
      modifies this, tree.cells.Keys
      ensures Ready() && routes == RoutesAfter(regs)
    {
      hide *;
      NoRegistrations();
      assert regs[..0] == [];
      for n := 0 to |regs|
        invariant Ready() && routes == RoutesAfter(regs[..n])
        invariant forall x :: x in tree.cells ==> x in old(tree.cells) || fresh(x)
      {
        AfterOne(regs, n);
        Call(regs[n]);
      }
      assert regs[..|regs|] == regs;
    }

    method Call(r: Registration)
      requires Ready() && Static(routes, Registrations.KeyOf(r))
      modifies this, tree.cells.Keys
      ensures Ready() && routes == Called(old(routes), r)
      ensures forall n :: n in tree.cells ==> n in old(tree.cells) || fresh(n)
    {
      hide TreeOk, SlotsAre, Spanned, Static, Agrees, RouteKey, RegisterAny, RegisterFor;
      match r
      case ForAll(path, id) => Add(path, id);
      case ForMethod(verb, path, id) => AddRoute(verb, path, id);
    }

    /** Finds the node of the route that answers the path. */
    method Lookup(path: string) returns (r: Node?)
      requires Ready()
      ensures (r == null || (r in tree.cells && r in tree.key)) && KeyOf(r) == Answer(routes, path)
    {
      hide TreeOk, SlotsAre, Spanned, FlatLookup, RootRoute;
      SameKeys(tree);
      if path == "" || path == "/" {
        SlotOf(tree, slots, routes, root);
        RootIsRootRoute(tree, slots, routes);
        return if HasHandler(root.handlers) || root.isPrefixMatch then root else null;
      }
      r := Search(RouteKey(path));
    }

    method MatchPath(path: string) returns (h: Option<Handler>)
      requires Ready()
      ensures h == PathAnswer(routes, path)
    {
      hide TreeOk, SlotsAre, Spanned, Answer;
      var node := Lookup(path);
      if node == null {
        return None;
      }
      SlotOf(tree, slots, routes, node);
      h := if node.handlers.any.Some? then node.handlers.any
           else if node.handlers.get.Some? then node.handlers.get else node.handlers.post;
    }

    method MatchMethod(verb: string, path: string) returns (h: Option<Handler>)
      requires Ready()
      ensures h == MethodAnswer(routes, verb, path)
    {
      hide TreeOk, SlotsAre, Spanned, Answer;
      var node := Lookup(path);
      if node == null {
        return None;
      }
      SlotOf(tree, slots, routes, node);
      h := GetHandler(node.handlers, verb);
      if h.None? {
        h := node.handlers.any;
      }
    }

    method Search(p: string) returns (r: Node?)
      requires Valid() && p != ""
      ensures (r == null || r in tree.key) && KeyOf(r) == FlatLookup(routes, p)
    {
      hide TreeOk, SlotsAre, Agrees, FlatLookup;
      RootHere(tree);
      r := root;
      var rest, fallback: Node? := p, null;
      ghost var parent: Node, j: nat := root, 0;
      assert Tracks(root, rest, fallback, p, parent, j);
      hide Tracks;
      while true
        invariant r != null && Tracks(r, rest, fallback, p, parent, j)
        decreases |rest|, if r == root then 1 else 0
      {
        ghost var from := r;
        var done;
        done, r, rest, fallback, j := Visit(r, rest, fallback, p, parent, j);
        if done {
          return;
        }
        parent := from;
      }
    }
  }

  /** What a registration into an empty router adds is the whole path. */
  lemma NothingYet(t: Tree<Node>, slots: map<Node, Route>, routes: map<string, Route>, path: string)
    requires TreeOk(t) && SlotsAre(t, slots, routes) && slots.Keys == t.cells.Keys && t.root in t.cells
    requires t.cells[t.root].path == "" && t.cells[t.root].children == [] && !HasHandler(slots[t.root].handlers)
    requires Static(routes, path)
    ensures !HasWildcard(path)
  {
    hide TreeOk, SlotsAre, HasWildcard;
    BareIsEmpty(t, slots, routes);
    if path != "" {
      assert Leaves(routes, path, 0);
      assert path[0..] == path;
    } else {
      NoWildcardInNothing();
    }
  }

  lemma NoWildcardInNothing()
    ensures !HasWildcard("")
  {
  }

  lemma BareIsEmpty(t: Tree<Node>, slots: map<Node, Route>, routes: map<string, Route>)
    requires TreeOk(t) && SlotsAre(t, slots, routes) && slots.Keys == t.cells.Keys && t.root in t.cells
    requires t.cells[t.root].path == "" && t.cells[t.root].children == [] && !HasHandler(slots[t.root].handlers)
    ensures routes == map[]
  {
    hide TreeOk, SlotsAre;
    SameKeys(t);
    BareRoot(t);
    NoRoutes(t, slots, routes);
  }

  lemma OnlyKey(t: Tree<Node>, path: string)
    requires t.key == map[t.root := path]
    ensures Fruitful(t, {path}) && Tight(path, {path})
  {
    assert path in {path} && path <= path;
    assert forall p :: BeginsEvery(p, {path}) ==> p <= path;
  }

  /** A router without routes has the bare root. */
  lemma BareRoutes(t: Tree<Node>, slots: map<Node, Route>, routes: map<string, Route>)
    requires TreeOk(t) && SlotsAre(t, slots, routes) && slots.Keys == t.cells.Keys && t.root in t.key
    requires Spanned(t, routes.Keys)
    ensures t.root in t.cells && t.root in slots
    ensures routes.Keys == {} ==>
              t.cells[t.root].path == "" && t.cells[t.root].children == [] && !HasHandler(slots[t.root].handlers)
  {
    hide TreeOk, Fruitful, Tight;
    RootHere(t);
    SameKeys(t);
    CellHere(t, t.root);
    SlotOf(t, slots, routes, t.root);
    if t.cells[t.root].children != [] {
      FirstChild(t, t.root);
    }
  }

  lemma FirstChild(t: Tree<Node>, n: Node)
    requires n in t.cells && n in t.key && CellOk(t, n) && t.cells[n].children != []
    ensures t.cells[n].children[0] in t.key && t.cells[n].children[0] != t.root
  {
  }

  lemma AddsNoWildcard(t: Tree<Node>, slots: map<Node, Route>, routes: map<string, Route>, n: Node,
                       rest: string, path: string)
    requires TreeOk(t) && SlotsAre(t, slots, routes) && n in t.cells && n in t.key && t.key[n] + rest == path
    requires rest != "" && rest[0] !in t.cells[n].indices && Fruitful(t, routes.Keys) && Static(routes, path)
    ensures !HasWildcard(rest)
  {
    hide TreeOk, SlotsAre, HasWildcard, Leaves;
    assert Bears(routes.Keys, t.key[n]);
    LeavesHere(t, slots, routes, n, path);
    assert path[|t.key[n]|..] == rest;
  }

  /** The lookup stands at `n`, with `rest` of `p` to match from the start of
      its segment. */
  ghost predicate Walking(t: Tree<Node>, n: Node, parent: Node, j: nat, rest: string, p: string) {
    && n in t.cells && n in t.key && HangsAt(t, n, parent, j)
    && |t.cells[n].path| <= |t.key[n]| && Base(t, n) + rest == p && rest != ""
    && (n != t.root ==> parent in t.key && j < |t.cells[parent].indices| && Before(t.key[parent], p)
                        && t.cells[parent].indices[j] == p[|t.key[parent]|] && t.cells[n].path != "")
  }

  lemma SegmentMatched(t: Tree<Node>, n: Node, parent: Node, j: nat, rest: string, p: string)
    requires TreeOk(t) && Walking(t, n, parent, j, rest, p)
    requires |t.cells[n].path| <= |rest| && rest[..|t.cells[n].path|] == t.cells[n].path
    ensures t.key[n] <= p && p == t.key[n] + rest[|t.cells[n].path|..]
  {
    hide TreeOk;
    SegmentEndsKey(t, n, parent, j);
  }

  lemma SegmentUnmatched(t: Tree<Node>, n: Node, parent: Node, j: nat, rest: string, p: string)
    requires TreeOk(t) && Walking(t, n, parent, j, rest, p)
    requires |rest| < |t.cells[n].path| || rest[..|t.cells[n].path|] != t.cells[n].path
    ensures !(t.key[n] <= p)
  {
    hide TreeOk;
    SegmentEndsKey(t, n, parent, j);
    if t.key[n] <= p {
      assert false;
    }
  }

  lemma ChildWalk(t: Tree<Node>, n: Node, k: nat, rest: string, p: string)
    requires TreeOk(t) && n in t.cells && n in t.key && k < |t.cells[n].indices|
    requires p == t.key[n] + rest && rest != "" && rest[0] == t.cells[n].indices[k]
    ensures k < |t.cells[n].children| && t.cells[n].children[k] != t.root
    ensures Walking(t, t.cells[n].children[k], n, k, rest, p)
  {
    hide TreeOk;
    CellHere(t, n);
    SegmentEndsKey(t, t.cells[n].children[k], n, k);
  }

  /** The walk stands at `n`, with `rest` of `path` still to match from the
      start of its segment. */
  ghost predicate AtNode(t: Tree<Node>, n: Node, parent: Node, j: nat, rest: string, path: string) {
    && n in t.cells && n in t.key && HangsAt(t, n, parent, j)
    && |t.cells[n].path| <= |t.key[n]| && Base(t, n) + rest == path
    && (n != t.root ==> t.cells[n].path != "" && rest != "" && rest[0] == t.cells[n].path[0])
  }

  lemma AtRoot(t: Tree<Node>, path: string)
    requires TreeOk(t)
    ensures t.root in t.cells && AtNode(t, t.root, t.root, 0, path, path)
  {
    hide TreeOk;
    RootHere(t);
  }

  lemma AtChild(t: Tree<Node>, n: Node, k: nat, rest: string, path: string)
    requires TreeOk(t) && n in t.cells && n in t.key && k < |t.cells[n].indices|
    requires t.key[n] + rest == path && rest != "" && rest[0] == t.cells[n].indices[k]
    ensures k < |t.cells[n].children| && t.cells[n].children[k] in t.cells && t.cells[n].children[k] != t.root
    ensures AtNode(t, t.cells[n].children[k], n, k, rest, path)
  {
    hide TreeOk;
    CellHere(t, n);
    SegmentEndsKey(t, t.cells[n].children[k], n, k);
  }

  /** The key up to where the node's segment and `rest` part. */
  lemma Front(t: Tree<Node>, n: Node, parent: Node, j: nat, rest: string, path: string, i: nat) returns (front: string)
    requires TreeOk(t) && AtNode(t, n, parent, j, rest, path)
    requires i <= |t.cells[n].path| && i <= |rest| && t.cells[n].path[..i] == rest[..i]
    requires i == |t.cells[n].path| || i == |rest| || t.cells[n].path[i] != rest[i]
    ensures front + rest[i..] == path && t.key[n] == front + t.cells[n].path[i..]
    ensures n in t.cells && HangsAt(t, n, parent, j) && (n != t.root ==> i > 0)
    ensures n == t.root ==> Meets(t.key[n], path, front)
  {
    hide TreeOk, Meets, HangsAt;
    SegmentEndsKey(t, n, parent, j);
    var base, segment := Base(t, n), t.cells[n].path;
    front := base + segment[..i];
    KeyAfterMatch(base, segment, rest, i, path);
    if n == t.root {
      RootHere(t);
      assert base == "" && rest == path;
      CutMeets(segment, rest, i);
      assert front == segment[..i];
    }
  }

  lemma KeyAfterMatch(base: string, segment: string, rest: string, i: nat, path: string)
    requires base + rest == path && i <= |segment| && i <= |rest| && segment[..i] == rest[..i]
    ensures (base + segment[..i]) + rest[i..] == path
    ensures base + segment == (base + segment[..i]) + segment[i..]
  {
    assert rest == rest[..i] + rest[i..];
    assert segment == segment[..i] + segment[i..];
  }

  lemma CutMeets(r: string, path: string, i: nat)
    requires i <= |r| && i <= |path| && r[..i] == path[..i] && (i == |r| || i == |path| || r[i] != path[i])
    ensures Meets(r, path, r[..i])
  {
  }

  lemma SameTail(a: string, b: string, tail: string)
    requires a + tail == b + tail
    ensures a == b
  {
    assert a == (a + tail)[..|a|] && b == (b + tail)[..|b|];
  }

  lemma GrowPlan(t: Tree<Node>, slots: map<Node, Route>, routes: map<string, Route>, n: Node, leaf: Node, rest: string)
    returns (t': Tree<Node>, slots': map<Node, Route>)
    requires TreeOk(t) && SlotsAre(t, slots, routes) && slots.Keys == t.cells.Keys
    requires n in t.cells && leaf !in t.cells && rest != "" && rest[0] !in t.cells[n].indices
    ensures t'.root == t.root && t'.cells.Keys == slots'.Keys == t.cells.Keys + {leaf}
    ensures forall m :: m in t.cells && m != n ==> t'.cells[m] == t.cells[m]
    ensures forall m :: m in t.cells ==> slots'[m] == slots[m]
    ensures t'.cells[n] == Cell(t.cells[n].path, t.cells[n].indices + [rest[0]], t.cells[n].children + [leaf])
    ensures t'.cells[leaf] == Cell(rest, "", []) && slots'[leaf] == NO_ROUTE
    ensures n in t.key && t'.key == t.key[leaf := t.key[n] + rest]
    ensures TreeOk(t') && SlotsAre(t', slots', routes)
  {
    hide TreeOk, SlotsAre;
    SameKeys(t);
    GrowOk(t, n, leaf, rest);
    GrowSlots(t, slots, routes, n, leaf, rest);
    t', slots' := Grow(t, n, leaf, rest), slots[leaf := NO_ROUTE];
  }

  lemma PlantPlan(t: Tree<Node>, slots: map<Node, Route>, routes: map<string, Route>, path: string)
    returns (t': Tree<Node>, slots': map<Node, Route>)
    requires TreeOk(t) && SlotsAre(t, slots, routes) && slots.Keys == t.cells.Keys
    requires t.cells[t.root].path == "" && t.cells[t.root].children == [] && !HasHandler(slots[t.root].handlers)
    ensures t'.root == t.root && t'.cells.Keys == slots'.Keys == t.cells.Keys == {t.root}
    ensures t'.cells[t.root] == Cell(path, "", []) && slots' == slots
    ensures t.cells[t.root].indices == "" && t'.key == map[t.root := path] && routes == map[]
    ensures TreeOk(t') && SlotsAre(t', slots', routes)
  {
    hide TreeOk, SlotsAre;
    SameKeys(t);
    BareRoot(t);
    CellHere(t, t.root);
    SingleOk(t.root, path);
    NoRoutes(t, slots, routes);
    t', slots' := Single(t.root, path), slots;
    BlankSlot(t', slots);
  }

  function Single(node: Node, path: string): (t: Tree<Node>)
    ensures t.root == node && t.cells == map[node := Cell(path, "", [])] && t.key == map[node := path]
  {
    var cells: map<Node, Cell<Node>> := map[node := Cell(path, "", [])];
    var key: map<Node, string> := map[node := path];
    Tree(node, cells, key)
  }

  /** The snapshot after splitting `n`, part by part. */
  lemma SplitPlan(t: Tree<Node>, slots: map<Node, Route>, routes: map<string, Route>,
                  n: Node, parent: Node, j: nat, i: nat, below: Node)
    returns (t': Tree<Node>, slots': map<Node, Route>)
    requires TreeOk(t) && SlotsAre(t, slots, routes) && slots.Keys == t.cells.Keys
    requires HangsAt(t, n, parent, j) && below !in t.cells
    requires i < |t.cells[n].path| && (n != t.root ==> 0 < i)
    ensures t'.root == t.root && t'.cells.Keys == slots'.Keys == t.cells.Keys + {below}
    ensures forall m :: m in t.cells && m != n ==> t'.cells[m] == t.cells[m] && slots'[m] == slots[m]
    ensures t'.cells[n] == Cell(t.cells[n].path[..i], [t.cells[n].path[i]], [below]) && slots'[n] == NO_ROUTE
    ensures t'.cells[below] == Cell(t.cells[n].path[i..], t.cells[n].indices, t.cells[n].children)
    ensures slots'[below] == slots[n]
    ensures n in t.key && n in t'.key && t.key[n] == t'.key[n] + t.cells[n].path[i..]
    ensures t'.key == t.key[below := t.key[n]][n := t'.key[n]]
    ensures TreeOk(t') && SlotsAre(t', slots', routes) && HangsAt(t', n, parent, j)
  {
    hide TreeOk, SlotsAre;
    CanSplit(t, n, parent, j, i, below);
    SplitOk(t, n, parent, j, i, below);
    SplitSlots(t, slots, routes, n, parent, j, i, below);
    SplitKey(t, n, parent, j, i, below);
    StillHangs(t, n, parent, j, i, below);
    t', slots' := Split(t, n, i, below), MoveSlot(slots, n, below);
  }

  lemma CanSplit(t: Tree<Node>, n: Node, parent: Node, j: nat, i: nat, below: Node)
    requires TreeOk(t) && HangsAt(t, n, parent, j) && below !in t.cells
    requires i < |t.cells[n].path| && (n != t.root ==> 0 < i)
    ensures Splittable(t, n, parent, j, i, below)
  {
    hide TreeOk;
    SameKeys(t);
    SegmentEndsKey(t, n, parent, j);
  }

  lemma StillHangs(t: Tree<Node>, n: Node, parent: Node, j: nat, i: nat, below: Node)
    requires Splittable(t, n, parent, j, i, below)
    ensures HangsAt(Split(t, n, i, below), n, parent, j)
  {
    hide TreeOk;
    if n != t.root {
      ChildKey(t, parent, j);
    }
  }
}
