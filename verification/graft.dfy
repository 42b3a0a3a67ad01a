/**
 Subtree grafting in topic.go (upChildren): after a sheet is decoded, every
 topic below a receiver is linked to its parent, joins the shared index
 under its identifier (a fresh one when it has none), and the same happens
 recursively below it, in pre-order.

 The decoded subtree is given as an inductive `Tree`, so the walk terminates
 structurally; grafting allocates one arena node per tree node.
 */
module Grafting {
  import opened Optional
  import opened Topics

  /** A decoded topic: identifier (possibly empty), title, layout tag and
      children. */
  datatype Tree = Tree(id: TopicId, title: string, structureClass: StructureClass,
                       children: Loaded)

  /** A decoded children pointer: nil, or a list (possibly empty). */
  datatype Loaded = Nil | Attached(ts: seq<Tree>)

  function Size(t: Tree): (n: nat)
    ensures n >= 1
    decreases t
  {
    1 + match t.children
        case Nil => 0
        case Attached(ks) => SizeAll(ks)
  }

  function SizeAll(ts: seq<Tree>): nat
    decreases ts
  {
    if |ts| == 0 then 0 else Size(ts[0]) + SizeAll(ts[1..])
  }

  /** Tree nodes without an identifier: the ones that draw a fresh one. */
  function Blanks(t: Tree): nat
    decreases t
  {
    (if t.id == "" then 1 else 0) +
    match t.children
    case Nil => 0
    case Attached(ks) => BlanksAll(ks)
  }

  function BlanksAll(ts: seq<Tree>): nat
    decreases ts
  {
    if |ts| == 0 then 0 else Blanks(ts[0]) + BlanksAll(ts[1..])
  }

  /** Every entry of `a` is kept in `b`. */
  ghost predicate Extends(a: map<Ref, Node>, b: map<Ref, Node>) {
    forall x | x in a :: x in b && b[x] == a[x]
  }

  lemma ExtendsTrans(a: map<Ref, Node>, b: map<Ref, Node>, c: map<Ref, Node>)
    requires Extends(a, b) && Extends(b, c)
    ensures Extends(a, c)
  {
  }

  /** Arena nodes all lie below the allocation pointer. */
  ghost predicate Below(s: Sheet) {
    forall x | x in s.nodes :: x < s.nextRef
  }

  /** A graft step's result: the sheet, the references allocated for the
      grafted trees (one per tree, in order), and the unused fresh
      identifiers. */
  datatype Grafted = Grafted(sheet: Sheet, refs: seq<Ref>, ids: seq<TopicId>)

  /** The loop body of upChildren for one child `t` of `p`: take an
      identifier, register the topic, link it to `p`, then graft its own
      children below it. The node's reference is reserved first and its
      record stored last, once its children's references are known. */
  function Graft(s: Sheet, p: Ref, t: Tree, ids: seq<TopicId>): (g: Grafted)
    requires Below(s) && |ids| >= Blanks(t)
    ensures Below(g.sheet) && Extends(s.nodes, g.sheet.nodes)
    ensures g.refs == [s.nextRef] && g.sheet.nextRef == s.nextRef + Size(t)
    ensures forall x | x in g.sheet.nodes :: x in s.nodes || s.nextRef <= x
    ensures g.ids == ids[Blanks(t)..]
    ensures g.sheet.counter == s.counter
    decreases t
  {
    var id := IdFor(t, ids);
    var s1 := Reserve(s, id);
    match t.children
    case Nil =>
      Grafted(Store(s1, s.nextRef, Record(id, t, p, None)), [s.nextRef], Rest(t, ids))
    case Attached(ks) =>
      var g := GraftAll(s1, s.nextRef, ks, Rest(t, ids));
      RestDrop(t, ids, BlanksAll(ks));
      Grafted(Store(g.sheet, s.nextRef, Record(id, t, p, Some(g.refs))), [s.nextRef], g.ids)
  }

  /** Dropping the identifiers of a node's children after its own. */
  lemma RestDrop(t: Tree, ids: seq<TopicId>, n: nat)
    requires t.children.Attached? && n == BlanksAll(t.children.ts) && |ids| >= Blanks(t)
    ensures Rest(t, ids)[n..] == ids[Blanks(t)..]
  {
  }

  /** The identifier a grafted topic is registered under: its own, or the
      next fresh one when it has none. */
  function IdFor(t: Tree, ids: seq<TopicId>): TopicId
    requires t.id != "" || |ids| > 0
  {
    if t.id == "" then ids[0] else t.id
  }

  /** A grafted topic keeps a given identifier, and a blank one never
      reaches the index as the centre key: it takes a fresh identifier. */
  lemma IdForAvoidsSentinels(t: Tree, ids: seq<TopicId>)
    requires t.id != "" || |ids| > 0
    requires (t.id == "" || !IsSentinel(t.id)) && ProperSupply(ids)
    ensures t.id != "" ==> IdFor(t, ids) == t.id
    ensures t.id == "" ==> IdFor(t, ids) == ids[0]
    ensures !IsSentinel(IdFor(t, ids))
  {
  }

  /** The fresh identifiers left after `t` took its own. */
  function Rest(t: Tree, ids: seq<TopicId>): seq<TopicId>
    requires t.id != "" || |ids| > 0
  {
    if t.id == "" then ids[1..] else ids
  }

  /** Index `id` at the next reference and reserve that reference. */
  function Reserve(s: Sheet, id: TopicId): Sheet {
    s.(resources := s.resources[id := s.nextRef], nextRef := s.nextRef + 1)
  }

  function Store(u: Sheet, r: Ref, n: Node): Sheet {
    u.(nodes := u.nodes[r := n])
  }

  /** The record of a grafted topic: indexed, linked to `p`, no root topic. */
  function Record(id: TopicId, t: Tree, p: Ref, children: Option<seq<Ref>>): Node {
    Node(id, t.title, t.structureClass, Some(p), children, None, true)
  }

  /** The loop of upChildren over a list of children of `p`. */
  function GraftAll(s: Sheet, p: Ref, ts: seq<Tree>, ids: seq<TopicId>): (g: Grafted)
    requires Below(s) && |ids| >= BlanksAll(ts)
    ensures Below(g.sheet) && Extends(s.nodes, g.sheet.nodes)
    ensures |g.refs| == |ts| && g.sheet.nextRef == s.nextRef + SizeAll(ts)
    ensures forall i | 0 <= i < |g.refs| :: s.nextRef <= g.refs[i]
    ensures forall x | x in g.sheet.nodes :: x in s.nodes || s.nextRef <= x
    ensures g.ids == ids[BlanksAll(ts)..]
    ensures g.sheet.counter == s.counter
    decreases ts
  {
    if |ts| == 0 then Grafted(s, [], ids)
    else
      var g1 := Graft(s, p, ts[0], ids);
      var g2 := GraftAll(g1.sheet, p, ts[1..], g1.ids);
      JoinGrafts(s, ts, ids, g1, g2);
      Grafted(g2.sheet, g1.refs + g2.refs, g2.ids)
  }

  /** The facts GraftAll promises, carried from its first graft and the
      rest of the loop to the whole list. */
  lemma JoinGrafts(s: Sheet, ts: seq<Tree>, ids: seq<TopicId>, g1: Grafted, g2: Grafted)
    requires |ts| > 0 && |ids| >= BlanksAll(ts)
    requires Extends(s.nodes, g1.sheet.nodes)
    requires g1.refs == [s.nextRef] && g1.sheet.nextRef == s.nextRef + Size(ts[0])
    requires forall x | x in g1.sheet.nodes :: x in s.nodes || s.nextRef <= x
    requires g1.ids == ids[Blanks(ts[0])..] && g1.sheet.counter == s.counter
    requires Extends(g1.sheet.nodes, g2.sheet.nodes)
    requires |g2.refs| == |ts| - 1 && g2.sheet.nextRef == g1.sheet.nextRef + SizeAll(ts[1..])
    requires forall i | 0 <= i < |g2.refs| :: g1.sheet.nextRef <= g2.refs[i]
    requires forall x | x in g2.sheet.nodes :: x in g1.sheet.nodes || g1.sheet.nextRef <= x
    requires g2.ids == g1.ids[BlanksAll(ts[1..])..] && g2.sheet.counter == g1.sheet.counter
    ensures Extends(s.nodes, g2.sheet.nodes)
    ensures |g1.refs + g2.refs| == |ts| && g2.sheet.nextRef == s.nextRef + SizeAll(ts)
    ensures forall i | 0 <= i < |g1.refs + g2.refs| :: s.nextRef <= (g1.refs + g2.refs)[i]
    ensures forall x | x in g2.sheet.nodes :: x in s.nodes || s.nextRef <= x
    ensures g2.ids == ids[BlanksAll(ts)..] && g2.sheet.counter == s.counter
  {
    ExtendsTrans(s.nodes, g1.sheet.nodes, g2.sheet.nodes);
    DropDrop(ids, Blanks(ts[0]), BlanksAll(ts[1..]));
  }

  lemma DropDrop<T>(xs: seq<T>, a: nat, b: nat)
    requires a + b <= |xs|
    ensures xs[a..][b..] == xs[a + b..]
  {
  }

  function LoadedBlanks(kids: Loaded): nat {
    match kids
    case Nil => 0
    case Attached(ts) => BlanksAll(ts)
  }

  /** upChildren on `st` whose decoded children are `kids`: nothing happens
      for a nil list; otherwise the children are grafted in order and become
      the list of `st`. The receiver must be indexed (the Go code writes
      into its index). */
  function UpChildren(s: Sheet, st: Ref, kids: Loaded, ids: seq<TopicId>): (g: Grafted)
    requires Below(s) && st in s.nodes && s.nodes[st].indexed && |ids| >= LoadedBlanks(kids)
    ensures Below(g.sheet) && g.sheet.counter == s.counter
    ensures g.sheet.nodes.Keys >= s.nodes.Keys
    ensures forall x | x in s.nodes && x != st :: g.sheet.nodes[x] == s.nodes[x]
    ensures kids.Nil? ==> g == Grafted(s, [], ids)
  {
    match kids
    case Nil => Grafted(s, [], ids)
    case Attached(ts) =>
      var g := GraftAll(s, st, ts, ids);
      Grafted(Hook(g.sheet, st, g.refs), g.refs, g.ids)
  }

  /** `st` takes `refs` as its children list. */
  function Hook(u: Sheet, st: Ref, refs: seq<Ref>): Sheet
    requires st in u.nodes
  {
    u.(nodes := u.nodes[st := u.nodes[st].(children := Some(refs))])
  }

  /** The arena reproduces the decoded tree below `r`: same titles, layout
      tags and given identifiers, the same nil-or-list shape, and every
      listed child points back at its parent (and was allocated after it). */
  ghost predicate Holds(nodes: map<Ref, Node>, r: Ref, t: Tree)
    decreases t
  {
    && r in nodes
    && nodes[r].title == t.title && nodes[r].structureClass == t.structureClass
    && (t.id != "" ==> nodes[r].id == t.id)
    && match t.children
       case Nil => nodes[r].children == None
       case Attached(ks) => nodes[r].children.Some? && HoldsAll(nodes, r, nodes[r].children.value, ks)
  }

  ghost predicate HoldsAll(nodes: map<Ref, Node>, p: Ref, rs: seq<Ref>, ts: seq<Tree>)
    decreases ts
  {
    && |rs| == |ts|
    && forall i | 0 <= i < |ts| ::
         p < rs[i] && rs[i] in nodes && nodes[rs[i]].parent == Some(p) && Holds(nodes, rs[i], ts[i])
  }

  lemma {:induction false} HoldsExtends(a: map<Ref, Node>, b: map<Ref, Node>, r: Ref, t: Tree)
    requires Holds(a, r, t) && Extends(a, b)
    ensures Holds(b, r, t)
    decreases t
  {
    match t.children
    case Nil =>
    case Attached(ks) =>
      HoldsAllExtends(a, b, r, a[r].children.value, ks);
  }

  lemma {:induction false} HoldsAllExtends(a: map<Ref, Node>, b: map<Ref, Node>, p: Ref, rs: seq<Ref>, ts: seq<Tree>)
    requires HoldsAll(a, p, rs, ts) && Extends(a, b)
    ensures HoldsAll(b, p, rs, ts)
    decreases ts
  {
    forall i | 0 <= i < |ts| ensures rs[i] in b && b[rs[i]].parent == Some(p) && Holds(b, rs[i], ts[i]) {
      HoldsExtends(a, b, rs[i], ts[i]);
    }
  }

  /** Storing a record at a reference allocated before `r` leaves the tree
      below `r` alone. */
  lemma {:induction false} HoldsStore(a: map<Ref, Node>, k: Ref, n: Node, r: Ref, t: Tree)
    requires Holds(a, r, t) && k < r
    ensures Holds(a[k := n], r, t)
    decreases t
  {
    match t.children
    case Nil =>
    case Attached(ks) =>
      HoldsAllStore(a, k, n, r, a[r].children.value, ks);
  }

  lemma {:induction false} HoldsAllStore(a: map<Ref, Node>, k: Ref, n: Node, p: Ref, rs: seq<Ref>, ts: seq<Tree>)
    requires HoldsAll(a, p, rs, ts) && k <= p
    ensures HoldsAll(a[k := n], p, rs, ts)
    decreases ts
  {
    forall i | 0 <= i < |ts|
      ensures rs[i] in a[k := n] && a[k := n][rs[i]].parent == Some(p) && Holds(a[k := n], rs[i], ts[i])
    {
      HoldsStore(a, k, n, rs[i], ts[i]);
    }
  }

  /** Grafting one tree yields a node that reproduces it, linked to `p`. */
  lemma {:induction false} GraftHolds(s: Sheet, p: Ref, t: Tree, ids: seq<TopicId>)
    requires Below(s) && |ids| >= Blanks(t)
    ensures var g := Graft(s, p, t, ids);
            && Holds(g.sheet.nodes, s.nextRef, t)
            && g.sheet.nodes[s.nextRef].parent == Some(p)
    decreases t
  {
    var id := IdFor(t, ids);
    var r := s.nextRef;
    var s1 := Reserve(s, id);
    match t.children
    case Nil =>
    case Attached(ks) =>
      var g := GraftAll(s1, r, ks, Rest(t, ids));
      GraftAllHolds(s1, r, ks, Rest(t, ids));
      HoldsRecord(g.sheet.nodes, r, id, t, p, g.refs, ks);
  }

  /** Storing the record of a fresh node over a list that already reproduces
      its children makes the node reproduce its tree. */
  lemma HoldsRecord(a: map<Ref, Node>, r: Ref, id: TopicId, t: Tree, p: Ref, refs: seq<Ref>, ks: seq<Tree>)
    requires r !in a && t.children == Attached(ks) && HoldsAll(a, r, refs, ks)
    requires t.id != "" ==> id == t.id
    ensures Holds(a[r := Record(id, t, p, Some(refs))], r, t)
  {
    HoldsAllExtends(a, a[r := Record(id, t, p, Some(refs))], r, refs, ks);
  }

  /** Grafting a list yields one node per tree, in order, each reproducing
      its tree and linked to `p`. */
  lemma {:induction false} GraftAllHolds(s: Sheet, p: Ref, ts: seq<Tree>, ids: seq<TopicId>)
    requires Below(s) && |ids| >= BlanksAll(ts) && p < s.nextRef
    ensures var g := GraftAll(s, p, ts, ids);
            HoldsAll(g.sheet.nodes, p, g.refs, ts)
    decreases ts
  {
    if |ts| > 0 {
      var g1 := Graft(s, p, ts[0], ids);
      var g2 := GraftAll(g1.sheet, p, ts[1..], g1.ids);
      GraftHolds(s, p, ts[0], ids);
      GraftAllHolds(g1.sheet, p, ts[1..], g1.ids);
      HoldsExtends(g1.sheet.nodes, g2.sheet.nodes, s.nextRef, ts[0]);
      HoldsAllCons(g2.sheet.nodes, p, s.nextRef, ts[0], g2.refs, ts[1..]);
      assert [ts[0]] + ts[1..] == ts;
    }
  }

  lemma HoldsAllCons(nodes: map<Ref, Node>, p: Ref, r: Ref, t: Tree, rs: seq<Ref>, ts: seq<Tree>)
    requires p < r && r in nodes && nodes[r].parent == Some(p) && Holds(nodes, r, t)
    requires HoldsAll(nodes, p, rs, ts)
    ensures HoldsAll(nodes, p, [r] + rs, [t] + ts)
  {
    var rs', ts' := [r] + rs, [t] + ts;
    forall i | 0 <= i < |ts'|
      ensures p < rs'[i] && rs'[i] in nodes && nodes[rs'[i]].parent == Some(p) && Holds(nodes, rs'[i], ts'[i])
    {
      if i > 0 {
        assert rs'[i] == rs[i - 1] && ts'[i] == ts[i - 1];
      }
    }
  }

  /** The identifiers the arena gives the blank nodes of `t` (those decoded
      without one) below `r`, in pre-order: the node first, then its
      children's subtrees from left to right. */
  ghost function BlankIds(nodes: map<Ref, Node>, r: Ref, t: Tree): seq<TopicId>
    decreases t
  {
    if r !in nodes then []
    else
      (if t.id == "" then [nodes[r].id] else []) +
      match t.children
      case Nil => []
      case Attached(ks) =>
        if nodes[r].children.Some? then BlankIdsAll(nodes, nodes[r].children.value, ks) else []
  }

  ghost function BlankIdsAll(nodes: map<Ref, Node>, rs: seq<Ref>, ts: seq<Tree>): seq<TopicId>
    decreases ts
  {
    if |ts| == 0 || |rs| == 0 then []
    else BlankIds(nodes, rs[0], ts[0]) + BlankIdsAll(nodes, rs[1..], ts[1..])
  }

  /** Extending the arena keeps the blank identifiers below a reproduced
      tree. */
  lemma {:induction false} BlankIdsExtends(a: map<Ref, Node>, b: map<Ref, Node>, r: Ref, t: Tree)
    requires Holds(a, r, t) && Extends(a, b)
    ensures BlankIds(b, r, t) == BlankIds(a, r, t)
    decreases t
  {
    match t.children
    case Nil =>
    case Attached(ks) =>
      BlankIdsAllExtends(a, b, r, a[r].children.value, ks);
  }

  lemma {:induction false} BlankIdsAllExtends(a: map<Ref, Node>, b: map<Ref, Node>, p: Ref, rs: seq<Ref>, ts: seq<Tree>)
    requires HoldsAll(a, p, rs, ts) && Extends(a, b)
    ensures BlankIdsAll(b, rs, ts) == BlankIdsAll(a, rs, ts)
    decreases ts
  {
    if |ts| > 0 {
      BlankIdsExtends(a, b, rs[0], ts[0]);
      BlankIdsAllExtends(a, b, p, rs[1..], ts[1..]);
    }
  }

  /** So does storing a record at a reference allocated before `r`. */
  lemma {:induction false} BlankIdsStore(a: map<Ref, Node>, k: Ref, n: Node, r: Ref, t: Tree)
    requires Holds(a, r, t) && k < r
    ensures BlankIds(a[k := n], r, t) == BlankIds(a, r, t)
    decreases t
  {
    match t.children
    case Nil =>
    case Attached(ks) =>
      BlankIdsAllStore(a, k, n, r, a[r].children.value, ks);
  }

  lemma {:induction false} BlankIdsAllStore(a: map<Ref, Node>, k: Ref, n: Node, p: Ref, rs: seq<Ref>, ts: seq<Tree>)
    requires HoldsAll(a, p, rs, ts) && k <= p
    ensures BlankIdsAll(a[k := n], rs, ts) == BlankIdsAll(a, rs, ts)
    decreases ts
  {
    if |ts| > 0 {
      BlankIdsStore(a, k, n, rs[0], ts[0]);
      BlankIdsAllStore(a, k, n, p, rs[1..], ts[1..]);
    }
  }

  lemma BlankIdsAllCons(nodes: map<Ref, Node>, r: Ref, rs: seq<Ref>, ts: seq<Tree>)
    requires |ts| > 0
    ensures BlankIdsAll(nodes, [r] + rs, ts) == BlankIds(nodes, r, ts[0]) + BlankIdsAll(nodes, rs, ts[1..])
  {
    assert ([r] + rs)[1..] == rs;
  }

  /** The inductive step of GraftAllBlankIds: the first tree's blank
      identifiers, then the rest of the list's. */
  lemma JoinBlankIds(a: map<Ref, Node>, b: map<Ref, Node>, r: Ref, rs: seq<Ref>, ts: seq<Tree>, ids: seq<TopicId>)
    requires |ts| > 0 && |ids| >= BlanksAll(ts)
    requires Holds(a, r, ts[0]) && Extends(a, b)
    requires BlankIds(a, r, ts[0]) == ids[..Blanks(ts[0])]
    requires BlankIdsAll(b, rs, ts[1..]) == ids[Blanks(ts[0])..][..BlanksAll(ts[1..])]
    ensures BlankIdsAll(b, [r] + rs, ts) == ids[..BlanksAll(ts)]
  {
    BlankIdsExtends(a, b, r, ts[0]);
    BlankIdsAllCons(b, r, rs, ts);
    TakeTake(ids, Blanks(ts[0]), BlanksAll(ts[1..]));
  }

  lemma TakeTake<T>(xs: seq<T>, a: nat, b: nat)
    requires a + b <= |xs|
    ensures xs[..a] + xs[a..][..b] == xs[..a + b]
  {
  }

  /** Grafting one tree hands the supply's identifiers to its blank nodes in
      pre-order, one each: the blank nodes, read in pre-order, carry exactly
      the first Blanks(t) identifiers of the supply. */
  lemma {:induction false} GraftBlankIds(s: Sheet, p: Ref, t: Tree, ids: seq<TopicId>)
    requires Below(s) && |ids| >= Blanks(t)
    ensures BlankIds(Graft(s, p, t, ids).sheet.nodes, s.nextRef, t) == ids[..Blanks(t)]
    decreases t
  {
    var id := IdFor(t, ids);
    var r := s.nextRef;
    var s1 := Reserve(s, id);
    var head := if t.id == "" then [id] else [];
    assert head == ids[..if t.id == "" then 1 else 0];
    match t.children
    case Nil =>
    case Attached(ks) =>
      var rest := Rest(t, ids);
      var g := GraftAll(s1, r, ks, rest);
      GraftAllBlankIds(s1, r, ks, rest);
      GraftAllHolds(s1, r, ks, rest);
      BlankIdsAllStore(g.sheet.nodes, r, Record(id, t, p, Some(g.refs)), r, g.refs, ks);
      TakeTake(ids, |head|, BlanksAll(ks));
  }

  /** Grafting a list hands out the supply in pre-order across the whole
      list: tree after tree, each taking as many identifiers as it has
      blank nodes. */
  lemma {:induction false} GraftAllBlankIds(s: Sheet, p: Ref, ts: seq<Tree>, ids: seq<TopicId>)
    requires Below(s) && |ids| >= BlanksAll(ts)
    ensures var g := GraftAll(s, p, ts, ids);
            BlankIdsAll(g.sheet.nodes, g.refs, ts) == ids[..BlanksAll(ts)]
    decreases ts
  {
    if |ts| > 0 {
      var g1 := Graft(s, p, ts[0], ids);
      var g2 := GraftAll(g1.sheet, p, ts[1..], g1.ids);
      GraftBlankIds(s, p, ts[0], ids);
      GraftHolds(s, p, ts[0], ids);
      GraftAllBlankIds(g1.sheet, p, ts[1..], g1.ids);
      JoinBlankIds(g1.sheet.nodes, g2.sheet.nodes, s.nextRef, g2.refs, ts, ids);
      assert GraftAll(s, p, ts, ids) == Grafted(g2.sheet, [s.nextRef] + g2.refs, g2.ids);
    }
  }

  /** upChildren round trip: afterwards the receiver's list reproduces the
      decoded children, tree for tree. */
  lemma UpChildrenHolds(s: Sheet, st: Ref, ts: seq<Tree>, ids: seq<TopicId>)
    requires Below(s) && st in s.nodes && s.nodes[st].indexed && |ids| >= BlanksAll(ts)
    ensures var g := UpChildren(s, st, Attached(ts), ids);
            && g.sheet.nodes[st].children == Some(g.refs)
            && HoldsAll(g.sheet.nodes, st, g.refs, ts)
  {
    var g := GraftAll(s, st, ts, ids);
    GraftAllHolds(s, st, ts, ids);
    var n := g.sheet.nodes[st].(children := Some(g.refs));
    HoldsAllStore(g.sheet.nodes, st, n, st, g.refs, ts);
  }

  /** Explicit identifiers of a decoded tree are not sentinel keys (a blank
      one draws a fresh identifier instead). */
  ghost predicate Proper(t: Tree)
    decreases t
  {
    && (t.id == "" || !IsSentinel(t.id))
    && match t.children
       case Nil => true
       case Attached(ks) => ProperAll(ks)
  }

  ghost predicate ProperAll(ts: seq<Tree>)
    decreases ts
  {
    forall i | 0 <= i < |ts| :: Proper(ts[i])
  }

  /** The identifier source hands out content identifiers only. */
  ghost predicate ProperSupply(ids: seq<TopicId>) {
    forall i | 0 <= i < |ids| :: !IsSentinel(ids[i])
  }

  /** A node allocated by a graft below `p` from reference `lo` on: indexed,
      a content identifier, no root topic, linked to `p` or to a node
      allocated before it in the same graft, and every listed child points
      back at it. */
  ghost predicate FreshNode(nodes: map<Ref, Node>, x: Ref, p: Ref, lo: Ref)
    requires x in nodes
  {
    var n := nodes[x];
    && n.indexed && !IsSentinel(n.id) && n.rootTopic == None
    && n.parent.Some? && (n.parent.value == p || lo <= n.parent.value < x)
    && (n.children.Some? ==>
          forall i | 0 <= i < |n.children.value| ::
            n.children.value[i] in nodes && nodes[n.children.value[i]].parent == Some(x))
  }

  /** An index entry after a graft: untouched, or a newly allocated node
      that carries the key. */
  ghost predicate Entry(s: Sheet, t: Sheet, k: TopicId)
    requires k in t.resources
  {
    || (k in s.resources && t.resources[k] == s.resources[k])
    || (t.resources[k] in t.nodes && t.resources[k] !in s.nodes
        && t.nodes[t.resources[k]].id == k && !IsSentinel(k))
  }

  /** What grafting below `p` does to sheet `s`, giving `t`: old nodes are
      kept, every reserved reference holds a node, every new node is a
      well-linked fresh node, no index key is lost and every entry is
      either untouched or points at a new node carrying it. */
  ghost predicate Grown(s: Sheet, t: Sheet, p: Ref) {
    && Extends(s.nodes, t.nodes)
    && (forall x | s.nextRef <= x < t.nextRef :: x in t.nodes)
    && (forall x {:trigger FreshNode(t.nodes, x, p, s.nextRef)} | x in t.nodes && x !in s.nodes ::
          FreshNode(t.nodes, x, p, s.nextRef))
    && s.resources.Keys <= t.resources.Keys
    && (forall k {:trigger Entry(s, t, k)} | k in t.resources :: Entry(s, t, k))
    && (forall x | x in t.nodes && x !in s.nodes :: t.nodes[x].id in t.resources)
  }

  lemma FreshNodeExtends(a: map<Ref, Node>, b: map<Ref, Node>, x: Ref, p: Ref, lo: Ref)
    requires x in a && FreshNode(a, x, p, lo) && Extends(a, b)
    ensures x in b && FreshNode(b, x, p, lo)
  {
    var cs := a[x].children;
    if cs.Some? {
      forall i | 0 <= i < |cs.value| ensures cs.value[i] in b && b[cs.value[i]].parent == Some(x) {
      }
    }
  }

  lemma FreshNodeWiden(nodes: map<Ref, Node>, x: Ref, q: Ref, p: Ref, lo: Ref)
    requires x in nodes && FreshNode(nodes, x, q, lo + 1) && lo <= q < x
    ensures FreshNode(nodes, x, p, lo)
  {
  }

  lemma EntryTrans(s: Sheet, t: Sheet, u: Sheet, k: TopicId)
    requires k in u.resources && Entry(t, u, k) && Extends(s.nodes, t.nodes) && Extends(t.nodes, u.nodes)
    requires k in t.resources ==> Entry(s, t, k)
    ensures Entry(s, u, k)
  {
  }

  /** Grafting twice below the same parent is one graft. */
  lemma GrownTrans(s: Sheet, t: Sheet, u: Sheet, p: Ref)
    requires Grown(s, t, p) && Grown(t, u, p) && s.nextRef <= t.nextRef
    requires forall x | x in t.nodes :: x in s.nodes || s.nextRef <= x
    ensures Grown(s, u, p)
  {
    ExtendsTrans(s.nodes, t.nodes, u.nodes);
    forall x | x in u.nodes && x !in s.nodes ensures FreshNode(u.nodes, x, p, s.nextRef) {
      if x in t.nodes {
        assert FreshNode(t.nodes, x, p, s.nextRef);
        FreshNodeExtends(t.nodes, u.nodes, x, p, s.nextRef);
      } else {
        assert FreshNode(u.nodes, x, p, t.nextRef);
      }
    }
    forall k | k in u.resources ensures Entry(s, u, k) {
      assert Entry(t, u, k);
      if k in t.resources {
        assert Entry(s, t, k);
      }
      EntryTrans(s, t, u, k);
    }
  }

  /** Closing one graft step: with the subtree below the reserved reference
      grown, storing that reference's record grows the sheet below `p`. */
  lemma CloseGraft(s: Sheet, p: Ref, id: TopicId, u: Sheet, n: Node)
    requires Below(s) && !IsSentinel(id)
    requires Grown(Reserve(s, id), u, s.nextRef)
    requires s.nextRef !in u.nodes && u.nextRef > s.nextRef
    requires forall x | x in u.nodes :: x in s.nodes || s.nextRef < x
    requires n.indexed && n.id == id && n.rootTopic == None && n.parent == Some(p)
    requires n.children.Some? ==>
               forall i | 0 <= i < |n.children.value| ::
                 n.children.value[i] in u.nodes && u.nodes[n.children.value[i]].parent == Some(s.nextRef)
    ensures Grown(s, Store(u, s.nextRef, n), p)
  {
    var r := s.nextRef;
    var s1 := Reserve(s, id);
    var v := Store(u, r, n);
    assert Extends(u.nodes, v.nodes);
    ExtendsTrans(s.nodes, u.nodes, v.nodes);
    forall x | x in v.nodes && x !in s.nodes ensures FreshNode(v.nodes, x, p, r) {
      if x != r {
        assert FreshNode(u.nodes, x, r, r + 1);
        FreshNodeExtends(u.nodes, v.nodes, x, r, r + 1);
        FreshNodeWiden(v.nodes, x, r, p, r);
      }
    }
    forall k | k in v.resources ensures Entry(s, v, k) {
      assert Entry(s1, u, k);
    }
  }

  /** Grafting a tree whose identifiers are proper grows the sheet below
      its parent. */
  lemma {:induction false} GraftGrows(s: Sheet, p: Ref, t: Tree, ids: seq<TopicId>)
    requires Below(s) && |ids| >= Blanks(t) && Proper(t) && ProperSupply(ids)
    ensures Grown(s, Graft(s, p, t, ids).sheet, p)
    decreases t
  {
    var id := IdFor(t, ids);
    var r := s.nextRef;
    var s1 := Reserve(s, id);
    match t.children
    case Nil =>
      CloseGraft(s, p, id, s1, Record(id, t, p, None));
    case Attached(ks) =>
      var rest := Rest(t, ids);
      assert ProperSupply(rest) by {
        if t.id == "" {
          assert forall i | 0 <= i < |rest| :: rest[i] == ids[i + 1];
        }
      }
      GraftAllGrows(s1, r, ks, rest);
      GraftAllHolds(s1, r, ks, rest);
      var g := GraftAll(s1, r, ks, rest);
      GraftStepGrows(s, p, id, t, g.sheet, g.refs);
  }

  /** The inductive step of GraftGrows: `u` and `refs` are the sheet and the
      references produced by grafting the children of `t`. */
  lemma GraftStepGrows(s: Sheet, p: Ref, id: TopicId, t: Tree, u: Sheet, refs: seq<Ref>)
    requires Below(s) && !IsSentinel(id) && t.children.Attached?
    requires && Grown(Reserve(s, id), u, s.nextRef) && Below(u) && u.nextRef > s.nextRef
             && forall x | x in u.nodes :: x in s.nodes || s.nextRef < x
    requires HoldsAll(u.nodes, s.nextRef, refs, t.children.ts)
    ensures Grown(s, Store(u, s.nextRef, Record(id, t, p, Some(refs))), p)
  {
    CloseGraft(s, p, id, u, Record(id, t, p, Some(refs)));
  }

  /** Grafting a list of proper trees grows the sheet below their parent. */
  lemma {:induction false} GraftAllGrows(s: Sheet, p: Ref, ts: seq<Tree>, ids: seq<TopicId>)
    requires Below(s) && |ids| >= BlanksAll(ts) && ProperAll(ts) && ProperSupply(ids)
    ensures Grown(s, GraftAll(s, p, ts, ids).sheet, p)
    decreases ts
  {
    if |ts| > 0 {
      var g1 := Graft(s, p, ts[0], ids);
      GraftGrows(s, p, ts[0], ids);
      assert ProperSupply(g1.ids) by {
        assert forall i | 0 <= i < |g1.ids| :: g1.ids[i] == ids[Blanks(ts[0]) + i];
      }
      assert ProperAll(ts[1..]) by {
        assert forall i | 0 <= i < |ts[1..]| :: ts[1..][i] == ts[i + 1];
      }
      var g2 := GraftAll(g1.sheet, p, ts[1..], g1.ids);
      GraftAllGrows(g1.sheet, p, ts[1..], g1.ids);
      GrownTrans(s, g1.sheet, g2.sheet, p);
    }
  }

  /** Hooking old node `x` below the changed receiver keeps its links. */
  lemma OldLinks(a: map<Ref, Node>, u: Sheet, st: Ref, refs: seq<Ref>, x: Ref)
    requires x in a && LinksOk(a, x) && Extends(a, u.nodes) && st in a
    requires forall i | 0 <= i < |refs| :: refs[i] in u.nodes && refs[i] != st && u.nodes[refs[i]].parent == Some(st)
    ensures x in Hook(u, st, refs).nodes && LinksOk(Hook(u, st, refs).nodes, x)
  {
    var v := Hook(u, st, refs).nodes;
    var cs := v[x].children;
    if cs.Some? {
      forall i | 0 <= i < |cs.value| ensures cs.value[i] in v && v[cs.value[i]].parent == Some(x) {
        if x != st {
          assert cs.value[i] in a && a[cs.value[i]].parent == Some(x);
        }
      }
    }
  }

  /** A fresh node keeps its links once the receiver is hooked, provided
      every reserved reference holds a node. */
  lemma NewLinks(u: Sheet, st: Ref, refs: seq<Ref>, x: Ref, lo: Ref)
    requires x in u.nodes && x != st && st in u.nodes && x < u.nextRef && FreshNode(u.nodes, x, st, lo)
    requires forall y | lo <= y < u.nextRef :: y in u.nodes
    ensures LinksOk(Hook(u, st, refs).nodes, x)
  {
    var v := Hook(u, st, refs).nodes;
    var cs := v[x].children;
    if cs.Some? {
      forall i | 0 <= i < |cs.value| ensures cs.value[i] in v && v[cs.value[i]].parent == Some(x) {
        assert cs.value[i] in u.nodes && u.nodes[cs.value[i]].parent == Some(x);
      }
    }
  }

  /** The premises under which hooking the grafted list onto `st` keeps a
      sheet well formed. */
  ghost predicate Hookable(s: Sheet, u: Sheet, st: Ref, refs: seq<Ref>) {
    && Wf(s) && st in s.nodes && Grown(s, u, st) && Below(u) && u.nextRef >= s.nextRef
    && (forall x | x in u.nodes :: x in s.nodes || s.nextRef <= x)
    && (forall i | 0 <= i < |refs| :: refs[i] in u.nodes && refs[i] != st && u.nodes[refs[i]].parent == Some(st))
  }

  lemma HookIndexOk(s: Sheet, u: Sheet, st: Ref, refs: seq<Ref>)
    requires Hookable(s, u, st, refs)
    ensures IndexOk(Hook(u, st, refs))
  {
    var v := Hook(u, st, refs);
    forall k | k in v.resources
      ensures v.resources[k] in v.nodes
      ensures !IsSentinel(k) ==> v.nodes[v.resources[k]].id == k
    {
      assert Entry(s, u, k);
    }
  }

  lemma HookShapeOk(s: Sheet, u: Sheet, st: Ref, refs: seq<Ref>)
    requires Hookable(s, u, st, refs) && IndexOk(Hook(u, st, refs))
    ensures ShapeOk(Hook(u, st, refs))
  {
    assert Entry(s, u, RootKey) && Entry(s, u, CentKey);
  }

  lemma HookLinksOk(s: Sheet, u: Sheet, st: Ref, refs: seq<Ref>)
    requires Hookable(s, u, st, refs)
    ensures AllLinksOk(Hook(u, st, refs).nodes)
  {
    var v := Hook(u, st, refs);
    forall x | x in v.nodes ensures LinksOk(v.nodes, x) {
      if x in s.nodes {
        assert LinksOk(s.nodes, x);
        OldLinks(s.nodes, u, st, refs, x);
      } else {
        assert FreshNode(u.nodes, x, st, s.nextRef);
        NewLinks(u, st, refs, x, s.nextRef);
      }
    }
  }

  /** upChildren keeps a sheet well formed, provided the decoded identifiers
      and the identifier source avoid the sentinel keys. */
  lemma UpChildrenKeepsWf(s: Sheet, st: Ref, kids: Loaded, ids: seq<TopicId>)
    requires Wf(s) && st in s.nodes && s.nodes[st].indexed && |ids| >= LoadedBlanks(kids)
    requires kids.Attached? ==> ProperAll(kids.ts)
    requires ProperSupply(ids)
    ensures Wf(UpChildren(s, st, kids, ids).sheet)
  {
    if kids.Attached? {
      var ts := kids.ts;
      var g := GraftAll(s, st, ts, ids);
      GraftAllGrows(s, st, ts, ids);
      GraftAllHolds(s, st, ts, ids);
      assert Hookable(s, g.sheet, st, g.refs);
      HookIndexOk(s, g.sheet, st, g.refs);
      HookShapeOk(s, g.sheet, st, g.refs);
      HookLinksOk(s, g.sheet, st, g.refs);
    }
  }

  /** upChildren registers the decoded subtree: one new arena node per tree
      node, each indexed under its identifier; no index key is lost, and an
      entry either is untouched or points at a new node carrying the key.
      The first BlanksAll(ts) fresh identifiers are consumed and the rest is
      left over (UpChildrenPreOrder says which node takes which). */
  lemma UpChildrenRegisters(s: Sheet, st: Ref, ts: seq<Tree>, ids: seq<TopicId>)
    requires Below(s) && st in s.nodes && s.nodes[st].indexed && |ids| >= BlanksAll(ts)
    requires ProperAll(ts) && ProperSupply(ids)
    ensures var g := UpChildren(s, st, Attached(ts), ids);
            && g.sheet.nextRef == s.nextRef + SizeAll(ts)
            && (forall x | s.nextRef <= x < g.sheet.nextRef ::
                  x in g.sheet.nodes && g.sheet.nodes[x].indexed && g.sheet.nodes[x].id in g.sheet.resources)
            && (forall x | x in g.sheet.nodes :: x in s.nodes || s.nextRef <= x)
            && s.resources.Keys <= g.sheet.resources.Keys
            && (forall k | k in g.sheet.resources ::
                  || (k in s.resources && g.sheet.resources[k] == s.resources[k])
                  || (s.nextRef <= g.sheet.resources[k] && g.sheet.resources[k] in g.sheet.nodes
                      && g.sheet.nodes[g.sheet.resources[k]].id == k))
            && g.ids == ids[BlanksAll(ts)..]
  {
    var g := GraftAll(s, st, ts, ids);
    GraftAllGrows(s, st, ts, ids);
    var v := Hook(g.sheet, st, g.refs);
    forall x | s.nextRef <= x < v.nextRef
      ensures x in v.nodes && v.nodes[x].indexed && v.nodes[x].id in v.resources
    {
      assert x !in s.nodes;
      assert FreshNode(g.sheet.nodes, x, st, s.nextRef);
    }
    forall k | k in v.resources
      ensures || (k in s.resources && v.resources[k] == s.resources[k])
              || (s.nextRef <= v.resources[k] && v.resources[k] in v.nodes
                  && v.nodes[v.resources[k]].id == k)
    {
      assert Entry(s, g.sheet, k);
    }
  }

  /** upChildren hands the fresh identifiers to the blank nodes below the
      receiver in pre-order, one each: read in pre-order, they carry exactly
      the first BlanksAll(ts) identifiers of the supply. */
  lemma UpChildrenPreOrder(s: Sheet, st: Ref, ts: seq<Tree>, ids: seq<TopicId>)
    requires Below(s) && st in s.nodes && s.nodes[st].indexed && |ids| >= BlanksAll(ts)
    ensures var g := UpChildren(s, st, Attached(ts), ids);
            BlankIdsAll(g.sheet.nodes, g.refs, ts) == ids[..BlanksAll(ts)]
  {
    var g := GraftAll(s, st, ts, ids);
    GraftAllHolds(s, st, ts, ids);
    GraftAllBlankIds(s, st, ts, ids);
    BlankIdsAllStore(g.sheet.nodes, st, g.sheet.nodes[st].(children := Some(g.refs)), st, g.refs, ts);
  }

  /** upChildren does not keep every listed child reachable: two decoded
      siblings carrying the same identifier are both listed, but the index
      keeps only the later one, so the earlier can no longer be found. */
  lemma UpChildrenDuplicateHides(sheetId: TopicId, centralId: TopicId, id: TopicId)
    requires |sheetId| == TopicIdLen && |centralId| == TopicIdLen && sheetId != centralId
    requires id != ""
    ensures var r := NewSheet("sheet", "central", [], sheetId, centralId);
            var leaf := Tree(id, "leaf", Unset, Nil);
            && BlanksAll([leaf, leaf]) == 0
            && var g := UpChildren(r.sheet, r.topic, Attached([leaf, leaf]), []);
               Indexed(r.sheet) && !Indexed(g.sheet)
  {
    var r := NewSheet("sheet", "central", [], sheetId, centralId);
    var leaf := Tree(id, "leaf", Unset, Nil);
    DuplicateGraft(r.sheet, id);
    var g := UpChildren(r.sheet, 1, Attached([leaf, leaf]), []);
    assert !Home(g.sheet, Kids(g.sheet.nodes[1])[0]);
  }

  /** The graft behind UpChildrenDuplicateHides, on any sheet whose next
      reference is 3: both copies are listed, the index keeps the second. */
  lemma DuplicateGraft(s: Sheet, id: TopicId)
    requires Below(s) && s.nextRef == 3 && 1 in s.nodes && s.nodes[1].indexed && id != ""
    ensures var leaf := Tree(id, "leaf", Unset, Nil);
            && BlanksAll([leaf, leaf]) == 0
            && var g := UpChildren(s, 1, Attached([leaf, leaf]), []);
               && g.sheet.nodes[1].children == Some([3, 4])
               && 3 in g.sheet.nodes && g.sheet.nodes[3].id == id
               && id in g.sheet.resources && g.sheet.resources[id] == 4
  {
    var leaf := Tree(id, "leaf", Unset, Nil);
    assert [leaf, leaf][1..] == [leaf] && [leaf][1..] == [];
    assert BlanksAll([leaf]) == 0;
    var g1 := Graft(s, 1, leaf, []);
    assert g1.sheet.resources == s.resources[id := 3] && g1.sheet.nextRef == 4;
    var g2 := Graft(g1.sheet, 1, leaf, []);
    assert g2.sheet.resources == g1.sheet.resources[id := 4];
    assert GraftAll(g1.sheet, 1, [leaf], []) == Grafted(g2.sheet, [4], []);
    assert GraftAll(s, 1, [leaf, leaf], []) == Grafted(g2.sheet, [3, 4], []);
  }
}
