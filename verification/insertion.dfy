/**
 Add, the four-mode insertion of topic.go: append a child (Sub), insert a
 sibling before or after the acting topic (Before / After), or wrap the acting
 topic in a new parent (Parent).
 */
module Insertion {
  import opened Optional
  import opened Splice
  import opened Decimal
  import opened Topics

  /** The mode byte; only the values 0 to 3 are named. */
  newtype AddMode = m: int | 0 <= m < 256

  const SubMode: AddMode := 0
  const BeforeMode: AddMode := 1
  const AfterMode: AddMode := 2
  const ParentMode: AddMode := 3

  /** The optional trailing mode argument: Sub when it is omitted. */
  function ModeOf(modes: seq<AddMode>): AddMode {
    if |modes| > 0 then modes[0] else SubMode
  }

  /** The title a new topic gets and the counter afterwards: an empty title
      advances the sheet counter and becomes "Topic n". */
  function AutoTitle(s: Sheet, title: string): (r: (string, nat))
    ensures title != "" || IncrKey !in s.resources ==> r == (title, s.counter)
    ensures title == "" && IncrKey in s.resources ==> r.1 == s.counter + 1
  {
    if title == "" && IncrKey in s.resources then
      ("Topic " + Show(s.counter + 1), s.counter + 1)
    else (title, s.counter)
  }

  /** An automatic title is "Topic " followed by the decimal digits of the
      advanced counter, and reading those digits back gives the counter. */
  lemma AutoTitleReadsBack(s: Sheet)
    requires IncrKey in s.resources
    ensures var r := AutoTitle(s, "");
            && |r.0| > 6 && r.0[..6] == "Topic "
            && (forall i | 6 <= i < |r.0| :: '0' <= r.0[i] <= '9')
            && Value(r.0[6..]) == r.1 == s.counter + 1
  {
    var n := s.counter + 1;
    assert AutoTitle(s, "").0[6..] == Show(n);
    ShowValue(n);
  }

  /** Everything outside `except` is left as it was. */
  ghost predicate Untouched(s: Sheet, t: Sheet, except: set<Ref>) {
    forall x | x in s.nodes && x !in except :: x in t.nodes && t.nodes[x] == s.nodes[x]
  }

  /** Steps one and two of Add: allocate the new topic as a child-to-be of
      `st` and index it under its fresh identifier. */
  function Register(s: Sheet, st: Ref, title: string, counter: nat, newId: TopicId): (t: Sheet)
    requires Wf(s) && st in s.nodes && s.nodes[st].indexed && FreshId(s, newId)
    ensures Wf(t)
    ensures t.resources == s.resources[newId := s.nextRef]
    ensures t.nodes.Keys == s.nodes.Keys + {s.nextRef} && s.nextRef !in s.nodes
    ensures t.nextRef == s.nextRef + 1 && t.counter == counter
    ensures t.nodes[s.nextRef] == Node(newId, title, Unset, Some(st), None, None, true)
    ensures Untouched(s, t, {})
  {
    var tp := s.nextRef;
    var t := Sheet(s.nodes[tp := Node(newId, title, Unset, Some(st), None, None, true)],
                   s.resources[newId := tp], counter, tp + 1);
    assert LinksOk(s.nodes, st);
    assert IndexOk(t) by {
      assert forall k | k in t.resources && k != newId :: k in s.resources;
    }
    forall r | r in t.nodes ensures LinksOk(t.nodes, r) {
      if r != tp { assert LinksOk(s.nodes, r); }
    }
    t
  }

  /** Sub mode: the new topic becomes the last child of `st`. */
  function AppendChild(s: Sheet, st: Ref, tp: Ref): (t: Sheet)
    requires Wf(s) && st in s.nodes && tp in s.nodes && s.nodes[tp].parent == Some(st)
    ensures Wf(t)
    ensures t.resources == s.resources && t.counter == s.counter && t.nextRef == s.nextRef
    ensures t.nodes.Keys == s.nodes.Keys && Untouched(s, t, {st})
    ensures t.nodes[st].children.Some?
    ensures |Kids(t.nodes[st])| == |Kids(s.nodes[st])| + 1
    ensures Kids(t.nodes[st])[|Kids(s.nodes[st])|] == tp
    ensures Kids(t.nodes[st])[..|Kids(s.nodes[st])|] == Kids(s.nodes[st])
    ensures t.nodes[st].(children := s.nodes[st].children) == s.nodes[st]
  {
    var n := s.nodes[st];
    var kids := if n.children.None? then [tp] else n.children.value + [tp];
    var t := s.(nodes := s.nodes[st := n.(children := Some(kids))]);
    assert LinksOk(s.nodes, st);
    assert kids[..|Kids(n)|] == Kids(n);
    forall r | r in t.nodes ensures LinksOk(t.nodes, r) {
      assert LinksOk(s.nodes, r);
    }
    t
  }

  /** Point the parent link of every topic in `kids` at `p` (the loop of
      topic.go lines 173-177; every iteration writes the same value, so order does not
      matter). */
  function Reparent(nodes: map<Ref, Node>, kids: seq<Ref>, p: Ref): (m: map<Ref, Node>)
    ensures m.Keys == nodes.Keys
  {
    map x | x in nodes :: if x in kids then nodes[x].(parent := Some(p)) else nodes[x]
  }

  /** The reparenting loop writes parent links only: every listed topic now
      points at `p` and every other topic is as it was. */
  lemma ReparentOnlyParents(nodes: map<Ref, Node>, kids: seq<Ref>, p: Ref)
    ensures var m := Reparent(nodes, kids, p);
            && (forall x | x in nodes :: x in m && m[x] == nodes[x].(parent := m[x].parent))
            && (forall x | x in nodes && x in kids :: m[x].parent == Some(p))
            && (forall x | x in nodes && x !in kids :: m[x] == nodes[x])
  {
  }

  /** The node map after Parent mode, before any invariant is established. */
  function WrapNodes(nodes: map<Ref, Node>, st: Ref, tp: Ref): (m: map<Ref, Node>)
    requires st in nodes && tp in nodes
    requires forall i | 0 <= i < |Kids(nodes[st])| :: Kids(nodes[st])[i] in nodes
  {
    var n := nodes[st];
    var m := nodes[tp];
    Reparent(nodes[st := n.(title := m.title, children := Some([tp]))]
                  [tp := m.(title := n.title, children := n.children)],
             Kids(n), tp)
  }

  /** Parent mode: `st` and the new topic `tp` swap titles, `tp` takes over
      the children of `st` (which now point back at `tp`), and `st` is left
      with `tp` as its only child. Nothing else changes: identifiers, layout
      tags, root topics and indexed flags stay, and a moved child changes
      its parent link only. A receiver listed among its own children (only
      possible on a cyclic arena) is moved below `tp` like the others, as
      the Go loop does. */
  function WrapParent(s: Sheet, st: Ref, tp: Ref): (t: Sheet)
    requires Wf(s) && st in s.nodes && tp in s.nodes && st != tp
    requires s.nodes[st].parent.Some? && st != Central(s)
    requires s.nodes[tp].parent == Some(st) && s.nodes[tp].children == None
    requires forall x | x in s.nodes :: tp !in Kids(s.nodes[x])
    ensures Wf(t)
    ensures t.resources == s.resources && t.counter == s.counter && t.nextRef == s.nextRef
    ensures t.nodes.Keys == s.nodes.Keys
    ensures t.nodes[st].title == s.nodes[tp].title && t.nodes[tp].title == s.nodes[st].title
    ensures t.nodes[tp].children == s.nodes[st].children
    ensures t.nodes[st].children == Some([tp])
    ensures t.nodes[tp].parent == Some(st) && t.nodes[tp].id == s.nodes[tp].id
    ensures forall c | c in Kids(s.nodes[st]) :: c in t.nodes && t.nodes[c].parent == Some(tp)
    ensures Untouched(s, t, {st, tp} + set c | c in Kids(s.nodes[st]))
    ensures t.nodes[st] == s.nodes[st].(title := s.nodes[tp].title, children := Some([tp]),
                                        parent := if st in Kids(s.nodes[st]) then Some(tp)
                                                  else s.nodes[st].parent)
    ensures t.nodes[tp] == s.nodes[tp].(title := s.nodes[st].title, children := s.nodes[st].children)
    ensures forall c | c in Kids(s.nodes[st]) && c != st :: t.nodes[c] == s.nodes[c].(parent := Some(tp))
  {
    assert LinksOk(s.nodes, st);
    assert LinksOk(s.nodes, tp);
    var t := s.(nodes := WrapNodes(s.nodes, st, tp));
    WrapKeepsWf(s, st, tp);
    t
  }

  lemma WrapKeepsWf(s: Sheet, st: Ref, tp: Ref)
    requires Wf(s) && st in s.nodes && tp in s.nodes && st != tp
    requires s.nodes[st].parent.Some? && st != Central(s)
    requires s.nodes[tp].parent == Some(st) && s.nodes[tp].children == None
    requires forall x | x in s.nodes :: tp !in Kids(s.nodes[x])
    requires LinksOk(s.nodes, st)
    ensures Wf(s.(nodes := WrapNodes(s.nodes, st, tp)))
  {
    var t := s.(nodes := WrapNodes(s.nodes, st, tp));
    var kids := Kids(s.nodes[st]);
    var root := s.resources[RootKey];
    var cent := s.resources[CentKey];
    assert LinksOk(s.nodes, root);
    assert LinksOk(s.nodes, tp);
    assert root !in kids && cent !in kids;
    assert IndexOk(t);
    assert ShapeOk(t);
    forall r | r in t.nodes ensures LinksOk(t.nodes, r) {
      WrapLinksOk(s.nodes, st, tp, r);
    }
  }

  lemma WrapLinksOk(nodes: map<Ref, Node>, st: Ref, tp: Ref, r: Ref)
    requires st in nodes && tp in nodes && r in nodes && st != tp
    requires LinksOk(nodes, st) && LinksOk(nodes, tp) && LinksOk(nodes, r)
    requires nodes[st].parent.Some?
    requires nodes[tp].parent == Some(st) && nodes[tp].children == None
    requires tp !in Kids(nodes[r])
    ensures LinksOk(WrapNodes(nodes, st, tp), r)
  {
    var m := WrapNodes(nodes, st, tp);
    var kids := Kids(nodes[st]);
    if r != st && r != tp {
      var cs := Kids(nodes[r]);
      forall i | 0 <= i < |cs| ensures cs[i] in m && m[cs[i]].parent == Some(r) {
        var c := cs[i];
        assert nodes[r].children.value[i] == c;
        assert nodes[c].parent == Some(r);
      }
    }
  }

  /** The sibling list after Before / After mode (topic.go lines 182-206): a nil list
      becomes `[tp]` whatever the mode, Before and After splice `tp` next to
      the last anchor, any other mode byte leaves the list alone. */
  function SiblingList(kids: Option<seq<Ref>>, tp: Ref, isAnchor: Ref -> bool, mode: AddMode)
    : (r: Option<seq<Ref>>)
    ensures r.Some?
    ensures kids.None? ==> r == Some([tp])
    ensures kids.Some? && mode == BeforeMode ==> r == Some(InsertBefore(kids.value, tp, isAnchor))
    ensures kids.Some? && mode == AfterMode ==> r == Some(InsertAfter(kids.value, tp, isAnchor))
    ensures kids.Some? && mode != BeforeMode && mode != AfterMode ==> r == kids
    ensures forall i | 0 <= i < |r.value| :: r.value[i] == tp || r.value[i] in kids.value
  {
    match kids
    case None => Some([tp])
    case Some(ks) =>
      if mode == BeforeMode then
        var ys := InsertBefore(ks, tp, isAnchor);
        assert forall i | 0 <= i < |ys| && ys[i] != tp :: ys[i] in ks by {
          forall i | 0 <= i < |ys| && ys[i] != tp ensures ys[i] in ks {
            var j := BeforeSlot(ks, isAnchor);
            assert i < j ==> ys[i] == ks[i];
            assert i > j ==> ys[i] == ks[i - 1];
          }
        }
        Some(ys)
      else if mode == AfterMode then
        var ys := InsertAfter(ks, tp, isAnchor);
        assert forall i | 0 <= i < |ys| && ys[i] != tp :: ys[i] in ks by {
          forall i | 0 <= i < |ys| && ys[i] != tp ensures ys[i] in ks {
            var j := AfterSlot(ks, isAnchor);
            assert i < j ==> ys[i] == ks[i];
            assert i > j ==> ys[i] == ks[i - 1];
          }
        }
        Some(ys)
      else kids
  }

  /** Before / After mode (and any other mode byte): the new topic becomes a
      sibling of `st`, its parent link moving to the parent of `st`, and only
      that parent's children list changes. */
  function InsertSibling(s: Sheet, st: Ref, tp: Ref, mode: AddMode): (t: Sheet)
    requires Wf(s) && st in s.nodes && tp in s.nodes && st != tp
    requires s.nodes[st].parent.Some? && s.nodes[tp].parent == Some(st)
    requires s.nodes[st].parent != Some(tp) && s.nodes[tp].children == None
    requires forall x | x in s.nodes :: tp !in Kids(s.nodes[x])
    ensures Wf(t)
    ensures t.resources == s.resources && t.counter == s.counter && t.nextRef == s.nextRef
    ensures t.nodes.Keys == s.nodes.Keys
    ensures var p := s.nodes[st].parent.value;
            && p in s.nodes
            && t.nodes[tp] == s.nodes[tp].(parent := Some(p))
            && Untouched(s, t, {p, tp})
            && t.nodes[p] == s.nodes[p].(children :=
                 SiblingList(s.nodes[p].children, tp, SameId(s.nodes, s.nodes[st].id), mode))
  {
    assert LinksOk(s.nodes, st);
    var p := s.nodes[st].parent.value;
    var kids := SiblingList(s.nodes[p].children, tp, SameId(s.nodes, s.nodes[st].id), mode);
    var t := s.(nodes := s.nodes[tp := s.nodes[tp].(parent := Some(p))]
                                [p := s.nodes[p].(children := kids)]);
    SiblingKeepsWf(s, st, tp, kids, t);
    t
  }

  lemma SiblingKeepsWf(s: Sheet, st: Ref, tp: Ref, kids: Option<seq<Ref>>, t: Sheet)
    requires Wf(s) && st in s.nodes && tp in s.nodes && st != tp
    requires s.nodes[st].parent.Some? && s.nodes[tp].parent == Some(st)
    requires s.nodes[st].parent != Some(tp) && s.nodes[tp].children == None
    requires forall x | x in s.nodes :: tp !in Kids(s.nodes[x])
    requires var p := s.nodes[st].parent.value;
             && p in s.nodes
             && (kids.Some? ==> forall i | 0 <= i < |kids.value| ::
                   kids.value[i] == tp || kids.value[i] in Kids(s.nodes[p]))
             && t.resources == s.resources && t.counter == s.counter && t.nextRef == s.nextRef
             && t.nodes == s.nodes[tp := s.nodes[tp].(parent := Some(p))]
                                  [p := s.nodes[p].(children := kids)]
    ensures Wf(t)
  {
    var p := s.nodes[st].parent.value;
    var root := s.resources[RootKey];
    assert LinksOk(s.nodes, p);
    assert LinksOk(s.nodes, tp);
    assert IndexOk(t);
    assert ShapeOk(t);
    forall r | r in t.nodes ensures LinksOk(t.nodes, r) {
      assert LinksOk(s.nodes, r);
      if r == p && kids.Some? {
        forall i | 0 <= i < |kids.value|
          ensures kids.value[i] in t.nodes && t.nodes[kids.value[i]].parent == Some(p)
        {
          var k := kids.value[i];
          if k != tp {
            var j :| 0 <= j < |Kids(s.nodes[p])| && Kids(s.nodes[p])[j] == k;
            assert s.nodes[p].children.value[j] == k;
            assert s.nodes[k].parent == Some(p);
          }
        }
      }
    }
  }

  /** Add: create a topic titled `title` (or "Topic n" when empty) with the
      identifier `newId` and splice it in according to the mode. A topic
      without a parent (the sheet node) refuses and nothing changes;
      otherwise the new identifier is indexed, pointing at the new topic, and
      an empty title advances the shared counter exactly once. */
  function Add(s: Sheet, st: Ref, title: string, modes: seq<AddMode>, newId: TopicId): (r: Step)
    requires Wf(s) && st in s.nodes && FreshId(s, newId)
    ensures Wf(r.sheet) && r.topic in r.sheet.nodes
    ensures s.nodes[st].parent.None? ==> r == Step(s, st)
    ensures s.nodes[st].parent.Some? ==>
              && r.sheet.resources == s.resources[newId := s.nextRef]
              && r.sheet.nodes.Keys == s.nodes.Keys + {s.nextRef}
              && r.sheet.nextRef == s.nextRef + 1
              && r.sheet.nodes[s.nextRef].id == newId
              && r.sheet.counter == (if title == "" then s.counter + 1 else s.counter)
  {
    var n := s.nodes[st];
    if n.parent.None? then Step(s, st)
    else
      var s1 := Registered(s, st, title, newId);
      var tp := s.nextRef;
      var mode := ModeOf(modes);
      if mode == SubMode || s1.resources[CentKey] == st then
        Step(AppendChild(s1, st, tp), st)
      else if mode == ParentMode then
        Step(WrapParent(s1, st, tp), tp)
      else
        Step(InsertSibling(s1, st, tp, mode), st)
  }

  /** Steps one and two of Add for a topic that has a parent, with the facts
      the mode-specific steps rely on. */
  function Registered(s: Sheet, st: Ref, title: string, newId: TopicId): (t: Sheet)
    requires Wf(s) && st in s.nodes && FreshId(s, newId) && s.nodes[st].parent.Some?
    ensures Wf(t)
    ensures t.resources == s.resources[newId := s.nextRef]
    ensures t.nodes.Keys == s.nodes.Keys + {s.nextRef} && s.nextRef !in s.nodes
    ensures t.nextRef == s.nextRef + 1 && t.counter == AutoTitle(s, title).1
    ensures t.counter == (if title == "" then s.counter + 1 else s.counter)
    ensures t.nodes[s.nextRef] ==
              Node(newId, AutoTitle(s, title).0, Unset, Some(st), None, None, true)
    ensures Untouched(s, t, {})
    ensures t.resources[CentKey] == s.resources[CentKey]
    ensures t.nodes[st].parent != Some(s.nextRef)
    ensures forall x | x in t.nodes :: s.nextRef !in Kids(t.nodes[x])
  {
    assert LinksOk(s.nodes, st);
    var (title', c) := AutoTitle(s, title);
    var tp := s.nextRef;
    var t := Register(s, st, title', c, newId);
    forall x | x in t.nodes ensures tp !in Kids(t.nodes[x]) {
      if x != tp {
        assert LinksOk(s.nodes, x);
      }
    }
    t
  }

  /** Sub mode, and every mode on the central topic: the new topic is the
      last child of the receiver, earlier children keep their order, a nil
      list becomes `[new]`, and the receiver is returned. */
  lemma AddSubAppends(s: Sheet, st: Ref, title: string, modes: seq<AddMode>, newId: TopicId)
    requires Wf(s) && st in s.nodes && FreshId(s, newId) && s.nodes[st].parent.Some?
    requires ModeOf(modes) == SubMode || st == Central(s)
    ensures var r := Add(s, st, title, modes, newId);
            && r.topic == st
            && r.sheet.nodes[s.nextRef].parent == Some(st)
            && r.sheet.nodes[s.nextRef].title == AutoTitle(s, title).0
            && r.sheet.nodes[st].children.Some?
            && Kids(r.sheet.nodes[st]) == Kids(s.nodes[st]) + [s.nextRef]
  {
    var r := Add(s, st, title, modes, newId);
    var s1 := Registered(s, st, title, newId);
    assert r.sheet == AppendChild(s1, st, s.nextRef);
    var before := Kids(s.nodes[st]);
    assert Kids(s1.nodes[st]) == before;
    assert Kids(r.sheet.nodes[st])[..|before|] == before;
  }

  /** Parent mode on any topic but the central one: the two topics swap
      titles, the new topic takes over the former children (which now point
      at it), the receiver keeps only the new topic, and the new topic is
      returned. The receiver keeps its identifier, parent, layout tag, root
      topic and indexed flag, a moved child changes its parent link only,
      and every other topic is left as it was. */
  lemma AddParentWraps(s: Sheet, st: Ref, title: string, modes: seq<AddMode>, newId: TopicId)
    requires Wf(s) && st in s.nodes && FreshId(s, newId) && s.nodes[st].parent.Some?
    requires ModeOf(modes) == ParentMode && st != Central(s)
    ensures var r := Add(s, st, title, modes, newId);
            && r.topic == s.nextRef
            && r.sheet.nodes[s.nextRef].title == s.nodes[st].title
            && r.sheet.nodes[st].title == AutoTitle(s, title).0
            && r.sheet.nodes[s.nextRef].children == s.nodes[st].children
            && r.sheet.nodes[st].children == Some([s.nextRef])
            && r.sheet.nodes[s.nextRef].parent == Some(st)
            && (forall c | c in Kids(s.nodes[st]) :: r.sheet.nodes[c].parent == Some(s.nextRef))
    ensures var r := Add(s, st, title, modes, newId);
            && r.sheet.nodes[s.nextRef]
                 == Node(newId, s.nodes[st].title, Unset, Some(st), s.nodes[st].children, None, true)
            && r.sheet.nodes[st]
                 == s.nodes[st].(title := AutoTitle(s, title).0, children := Some([s.nextRef]),
                                 parent := if st in Kids(s.nodes[st]) then Some(s.nextRef)
                                           else s.nodes[st].parent)
            && (forall c | c in Kids(s.nodes[st]) && c != st ::
                  r.sheet.nodes[c] == s.nodes[c].(parent := Some(s.nextRef)))
            && Untouched(s, r.sheet, {st} + set c | c in Kids(s.nodes[st]))
  {
    var s1 := Registered(s, st, title, newId);
    assert Add(s, st, title, modes, newId) == Step(WrapParent(s1, st, s.nextRef), s.nextRef);
    assert s1.nodes[st] == s.nodes[st];
  }

  /** Before / After mode on a topic other than the central one: the new
      topic's parent is the receiver's parent, and the parent's list becomes
      the old list with the new topic spliced next to the last sibling that
      carries the receiver's identifier (a nil list becomes `[new]`); the
      receiver is returned. */
  lemma AddSiblingSplices(s: Sheet, st: Ref, title: string, modes: seq<AddMode>, newId: TopicId)
    requires Wf(s) && st in s.nodes && FreshId(s, newId) && s.nodes[st].parent.Some?
    requires ModeOf(modes) != SubMode && ModeOf(modes) != ParentMode && st != Central(s)
    ensures var r := Add(s, st, title, modes, newId);
            var p := s.nodes[st].parent.value;
            && p in s.nodes
            && r.topic == st
            && r.sheet.nodes[s.nextRef].parent == Some(p)
            && r.sheet.nodes[s.nextRef].title == AutoTitle(s, title).0
            && r.sheet.nodes[p].children ==
                 SiblingList(s.nodes[p].children, s.nextRef,
                             SameId(s.nodes, s.nodes[st].id), ModeOf(modes))
  {
    assert LinksOk(s.nodes, st);
    var p := s.nodes[st].parent.value;
    var s1 := Registered(s, st, title, newId);
    assert Add(s, st, title, modes, newId) == Step(InsertSibling(s1, st, s.nextRef, ModeOf(modes)), st);
    assert s1.nodes[st] == s.nodes[st] && s1.nodes[p] == s.nodes[p];
    assert LinksOk(s.nodes, p);
    if s.nodes[p].children.Some? {
      SiblingListFrame(s.nodes, s1.nodes, s.nodes[p].children.value, s.nextRef, s.nodes[st].id, ModeOf(modes));
    }
  }

  /** The anchor test reads the identifiers of the current siblings only. */
  lemma SiblingListFrame(a: map<Ref, Node>, b: map<Ref, Node>, kids: seq<Ref>, tp: Ref, id: TopicId, mode: AddMode)
    requires forall i | 0 <= i < |kids| :: kids[i] in a
    requires forall x | x in a :: x in b && b[x] == a[x]
    ensures SiblingList(Some(kids), tp, SameId(a, id), mode) == SiblingList(Some(kids), tp, SameId(b, id), mode)
  {
    var f, g := SameId(a, id), SameId(b, id);
    forall i | 0 <= i < |kids| ensures f(kids[i]) == g(kids[i]) {
      assert kids[i] in a;
    }
    SiblingListAgree(kids, tp, f, g, mode);
  }

  /** The sibling list depends on the anchor test only through its verdicts
      on the current siblings. */
  lemma SiblingListAgree(kids: seq<Ref>, tp: Ref, f: Ref -> bool, g: Ref -> bool, mode: AddMode)
    requires forall i | 0 <= i < |kids| :: f(kids[i]) == g(kids[i])
    ensures SiblingList(Some(kids), tp, f, mode) == SiblingList(Some(kids), tp, g, mode)
  {
    LastMatchAgree(kids, f, g);
  }

  /** With unique identifiers, Before places the new topic immediately in
      front of the receiver in its parent's list, and removing it gives the
      old list back: every other sibling keeps its relative order. */
  lemma AddBeforeIsAdjacent(s: Sheet, st: Ref, title: string, newId: TopicId)
    requires Wf(s) && UniqueIds(s.nodes) && st in s.nodes && FreshId(s, newId)
    requires s.nodes[st].parent.Some? && st != Central(s)
    requires s.nodes[st].parent.value in s.nodes
    requires st in Kids(s.nodes[s.nodes[st].parent.value])
    ensures var r := Add(s, st, title, [BeforeMode], newId);
            var p := s.nodes[st].parent.value;
            var kids := Kids(s.nodes[p]);
            var ys := Kids(r.sheet.nodes[p]);
            var j := BeforeSlot(kids, SameId(s.nodes, s.nodes[st].id));
            && j + 1 < |ys| && ys[j] == s.nextRef && ys[j + 1] == st
            && RemoveAt(ys, j) == kids
  {
    var p := s.nodes[st].parent.value;
    var kids := Kids(s.nodes[p]);
    var f := SameId(s.nodes, s.nodes[st].id);
    AddSiblingSplices(s, st, title, [BeforeMode], newId);
    assert LinksOk(s.nodes, p);
    assert Kids(Add(s, st, title, [BeforeMode], newId).sheet.nodes[p]) == InsertBefore(kids, s.nextRef, f);
    BeforeAdjacent(s.nodes, kids, st, s.nextRef);
  }

  /** With unique identifiers, After places the new topic immediately behind
      the receiver in its parent's list, and removing it gives the old list
      back. */
  lemma AddAfterIsAdjacent(s: Sheet, st: Ref, title: string, newId: TopicId)
    requires Wf(s) && UniqueIds(s.nodes) && st in s.nodes && FreshId(s, newId)
    requires s.nodes[st].parent.Some? && st != Central(s)
    requires s.nodes[st].parent.value in s.nodes
    requires st in Kids(s.nodes[s.nodes[st].parent.value])
    ensures var r := Add(s, st, title, [AfterMode], newId);
            var p := s.nodes[st].parent.value;
            var kids := Kids(s.nodes[p]);
            var ys := Kids(r.sheet.nodes[p]);
            var j := AfterSlot(kids, SameId(s.nodes, s.nodes[st].id));
            && 0 < j < |ys| && ys[j] == s.nextRef && ys[j - 1] == st
            && RemoveAt(ys, j) == kids
  {
    var p := s.nodes[st].parent.value;
    var kids := Kids(s.nodes[p]);
    var f := SameId(s.nodes, s.nodes[st].id);
    AddSiblingSplices(s, st, title, [AfterMode], newId);
    assert LinksOk(s.nodes, p);
    assert Kids(Add(s, st, title, [AfterMode], newId).sheet.nodes[p]) == InsertAfter(kids, s.nextRef, f);
    AfterAdjacent(s.nodes, kids, st, s.nextRef);
  }

  /** Before, on a list holding the receiver, puts the new topic right in
      front of it. */
  lemma BeforeAdjacent(nodes: map<Ref, Node>, kids: seq<Ref>, st: Ref, tp: Ref)
    requires UniqueIds(nodes) && st in nodes && st in kids
    requires forall i | 0 <= i < |kids| :: kids[i] in nodes
    ensures var f := SameId(nodes, nodes[st].id);
            var ys := InsertBefore(kids, tp, f);
            var j := BeforeSlot(kids, f);
            && j + 1 < |ys| && ys[j] == tp && ys[j + 1] == st && RemoveAt(ys, j) == kids
  {
    AnchorIsReceiver(nodes, kids, st);
  }

  /** After, on a list holding the receiver, puts the new topic right behind
      it. */
  lemma AfterAdjacent(nodes: map<Ref, Node>, kids: seq<Ref>, st: Ref, tp: Ref)
    requires UniqueIds(nodes) && st in nodes && st in kids
    requires forall i | 0 <= i < |kids| :: kids[i] in nodes
    ensures var f := SameId(nodes, nodes[st].id);
            var ys := InsertAfter(kids, tp, f);
            var j := AfterSlot(kids, f);
            && 0 < j < |ys| && ys[j] == tp && ys[j - 1] == st && RemoveAt(ys, j) == kids
  {
    AnchorIsReceiver(nodes, kids, st);
  }

  /** With unique identifiers, the anchor the sibling splice finds in a list
      holding the receiver is the receiver itself. */
  lemma AnchorIsReceiver(nodes: map<Ref, Node>, kids: seq<Ref>, st: Ref)
    requires UniqueIds(nodes) && st in nodes && st in kids
    requires forall i | 0 <= i < |kids| :: kids[i] in nodes
    ensures var m := LastMatch(kids, SameId(nodes, nodes[st].id));
            m.Some? && kids[m.value] == st
  {
    var f := SameId(nodes, nodes[st].id);
    var i :| 0 <= i < |kids| && kids[i] == st;
    assert f(kids[i]);
    var m := LastMatch(kids, f);
    assert f(kids[m.value]);
  }

  /** A receiver missing from its parent's list: Before and After both put
      the new topic at the head of the list. */
  lemma AddSiblingWithoutAnchor(s: Sheet, st: Ref, title: string, mode: AddMode, newId: TopicId)
    requires Wf(s) && UniqueIds(s.nodes) && st in s.nodes && FreshId(s, newId)
    requires s.nodes[st].parent.Some? && st != Central(s)
    requires mode == BeforeMode || mode == AfterMode
    requires s.nodes[st].parent.value in s.nodes
    requires s.nodes[s.nodes[st].parent.value].children.Some?
    requires st !in Kids(s.nodes[s.nodes[st].parent.value])
    ensures var r := Add(s, st, title, [mode], newId);
            var p := s.nodes[st].parent.value;
            r.sheet.nodes[p].children == Some([s.nextRef] + Kids(s.nodes[p]))
  {
    var p := s.nodes[st].parent.value;
    var kids := Kids(s.nodes[p]);
    AddSiblingSplices(s, st, title, [mode], newId);
    assert LinksOk(s.nodes, p);
    NoAnchor(s.nodes, kids, st);
  }

  /** With unique identifiers, a list that does not hold `st` holds no topic
      carrying the identifier of `st`. */
  lemma NoAnchor(nodes: map<Ref, Node>, kids: seq<Ref>, st: Ref)
    requires UniqueIds(nodes) && st in nodes && st !in kids
    requires forall i | 0 <= i < |kids| :: kids[i] in nodes
    ensures LastMatch(kids, SameId(nodes, nodes[st].id)).None?
  {
    var f := SameId(nodes, nodes[st].id);
    forall j | 0 <= j < |kids| ensures !f(kids[j]) {
      assert kids[j] != st;
    }
  }

  /** An out-of-range mode byte on a topic other than the central one, when
      the parent already has a list: the new topic is indexed and points at
      the receiver's parent, but is listed nowhere. */
  lemma AddUnknownModeOrphans(s: Sheet, st: Ref, title: string, mode: AddMode, newId: TopicId)
    requires Wf(s) && st in s.nodes && FreshId(s, newId)
    requires s.nodes[st].parent.Some? && st != Central(s)
    requires mode > ParentMode
    requires s.nodes[st].parent.value in s.nodes
    requires s.nodes[s.nodes[st].parent.value].children.Some?
    ensures var r := Add(s, st, title, [mode], newId);
            && newId in r.sheet.resources && r.sheet.resources[newId] == s.nextRef
            && r.sheet.nodes[s.nextRef].parent == s.nodes[st].parent
            && forall x | x in r.sheet.nodes :: s.nextRef !in Kids(r.sheet.nodes[x])
  {
    var s1 := Registered(s, st, title, newId);
    assert s1.nodes[st] == s.nodes[st];
    assert Add(s, st, title, [mode], newId) == Step(InsertSibling(s1, st, s.nextRef, mode), st);
    SiblingOrphans(s1, st, s.nextRef, mode);
  }

  /** An unknown mode leaves the parent's list as it was, so the new topic is
      listed nowhere. */
  lemma SiblingOrphans(s: Sheet, st: Ref, tp: Ref, mode: AddMode)
    requires Wf(s) && st in s.nodes && tp in s.nodes && st != tp
    requires s.nodes[st].parent.Some? && s.nodes[tp].parent == Some(st)
    requires s.nodes[st].parent != Some(tp) && s.nodes[tp].children == None
    requires forall x | x in s.nodes :: tp !in Kids(s.nodes[x])
    requires mode > ParentMode
    requires s.nodes[st].parent.value in s.nodes && s.nodes[s.nodes[st].parent.value].children.Some?
    ensures var t := InsertSibling(s, st, tp, mode);
            forall x | x in t.nodes :: tp !in Kids(t.nodes[x])
  {
    var t := InsertSibling(s, st, tp, mode);
    var p := s.nodes[st].parent.value;
    assert t.nodes[p].children == s.nodes[p].children;
    forall x | x in t.nodes ensures tp !in Kids(t.nodes[x]) {
      if x != p && x != tp {
        assert t.nodes[x] == s.nodes[x];
      }
    }
  }

  /** Automatic titles drawn at different counter values differ, so a run of
      Adds with empty titles never repeats a title. */
  lemma AutoTitlesDiffer(s: Sheet, t: Sheet)
    requires IncrKey in s.resources && IncrKey in t.resources && s.counter != t.counter
    ensures AutoTitle(s, "").0 != AutoTitle(t, "").0
  {
    AutoTitleReadsBack(s);
    AutoTitleReadsBack(t);
  }

  lemma TitleInjective(a: nat, b: nat)
    requires "Topic " + Show(a) == "Topic " + Show(b)
    ensures a == b
  {
    var x, y := "Topic " + Show(a), "Topic " + Show(b);
    assert x[6..] == Show(a) && y[6..] == Show(b);
    ShowInjective(a, b);
  }

  /** Parent mode rewrites titles, children and parent links only. */
  lemma WrapNodesKeepsIds(nodes: map<Ref, Node>, st: Ref, tp: Ref)
    requires st in nodes && tp in nodes
    requires forall i | 0 <= i < |Kids(nodes[st])| :: Kids(nodes[st])[i] in nodes
    ensures forall x | x in nodes :: x in WrapNodes(nodes, st, tp) && WrapNodes(nodes, st, tp)[x].id == nodes[x].id
  {
  }

  /** Parent mode rewrites the lists of the receiver and the new topic
      only: the receiver lists the new topic alone, the new topic takes over
      the receiver's list, and every other list stays as it was. */
  lemma WrapNodesKeepsLists(nodes: map<Ref, Node>, st: Ref, tp: Ref)
    requires st in nodes && tp in nodes && st != tp
    requires forall i | 0 <= i < |Kids(nodes[st])| :: Kids(nodes[st])[i] in nodes
    ensures var m := WrapNodes(nodes, st, tp);
            && m.Keys == nodes.Keys
            && m[st].children == Some([tp]) && m[tp].children == nodes[st].children
            && forall x | x in nodes && x != st && x != tp :: m[x].children == nodes[x].children
  {
  }

  /** Add never changes the identifier of an existing topic. */
  lemma AddKeepsIds(s: Sheet, st: Ref, title: string, modes: seq<AddMode>, newId: TopicId)
    requires Wf(s) && st in s.nodes && FreshId(s, newId)
    ensures var r := Add(s, st, title, modes, newId);
            forall x | x in s.nodes :: x in r.sheet.nodes && r.sheet.nodes[x].id == s.nodes[x].id
  {
    if s.nodes[st].parent.Some? {
      var s1 := Registered(s, st, title, newId);
      var mode := ModeOf(modes);
      var r := Add(s, st, title, modes, newId);
      if mode == SubMode || s1.resources[CentKey] == st {
        assert r.sheet == AppendChild(s1, st, s.nextRef);
        AppendKeepsIds(s1, st, s.nextRef);
      } else if mode == ParentMode {
        assert r.sheet == WrapParent(s1, st, s.nextRef);
        WrapKeepsIds(s1, st, s.nextRef);
      } else {
        assert r.sheet == InsertSibling(s1, st, s.nextRef, mode);
        SiblingKeepsIds(s1, st, s.nextRef, mode);
      }
      forall x | x in s.nodes ensures x in r.sheet.nodes && r.sheet.nodes[x].id == s.nodes[x].id {
        assert x in s1.nodes && s1.nodes[x] == s.nodes[x];
      }
    }
  }

  lemma AppendKeepsIds(s: Sheet, st: Ref, tp: Ref)
    requires Wf(s) && st in s.nodes && tp in s.nodes && s.nodes[tp].parent == Some(st)
    ensures forall x | x in s.nodes :: AppendChild(s, st, tp).nodes[x].id == s.nodes[x].id
  {
    var t := AppendChild(s, st, tp);
    assert t.nodes[st].id == s.nodes[st].id;
  }

  lemma WrapKeepsIds(s: Sheet, st: Ref, tp: Ref)
    requires Wf(s) && st in s.nodes && tp in s.nodes && st != tp
    requires s.nodes[st].parent.Some? && st != Central(s)
    requires s.nodes[tp].parent == Some(st) && s.nodes[tp].children == None
    requires forall x | x in s.nodes :: tp !in Kids(s.nodes[x])
    ensures forall x | x in s.nodes :: WrapParent(s, st, tp).nodes[x].id == s.nodes[x].id
  {
    assert LinksOk(s.nodes, st);
    WrapNodesKeepsIds(s.nodes, st, tp);
  }

  lemma SiblingKeepsIds(s: Sheet, st: Ref, tp: Ref, mode: AddMode)
    requires Wf(s) && st in s.nodes && tp in s.nodes && st != tp
    requires s.nodes[st].parent.Some? && s.nodes[tp].parent == Some(st)
    requires s.nodes[st].parent != Some(tp) && s.nodes[tp].children == None
    requires forall x | x in s.nodes :: tp !in Kids(s.nodes[x])
    ensures forall x | x in s.nodes :: InsertSibling(s, st, tp, mode).nodes[x].id == s.nodes[x].id
  {
    var t := InsertSibling(s, st, tp, mode);
    var p := s.nodes[st].parent.value;
    assert t.nodes[p].id == s.nodes[p].id;
  }

  /** Add keeps identifiers unique: the fresh identifier is carried by no
      earlier topic. */
  lemma AddKeepsUniqueIds(s: Sheet, st: Ref, title: string, modes: seq<AddMode>, newId: TopicId)
    requires Wf(s) && UniqueIds(s.nodes) && st in s.nodes && FreshId(s, newId)
    ensures UniqueIds(Add(s, st, title, modes, newId).sheet.nodes)
  {
    var r := Add(s, st, title, modes, newId);
    AddKeepsIds(s, st, title, modes, newId);
    if s.nodes[st].parent.Some? {
      assert s.nextRef !in s.nodes;
      forall x, y | x in r.sheet.nodes && y in r.sheet.nodes && x != y
        ensures r.sheet.nodes[x].id != r.sheet.nodes[y].id
      {
        if x != s.nextRef && y != s.nextRef {
          assert s.nodes[x].id != s.nodes[y].id;
        }
      }
    }
  }

  /** Lists rewritten over the same index and identifiers keep every listed
      child reachable when each child listed afterwards was reachable
      before. */
  lemma ListedFromHome(s: Sheet, t: Sheet)
    requires t.resources == s.resources && t.nodes.Keys == s.nodes.Keys
    requires forall x | x in s.nodes :: t.nodes[x].id == s.nodes[x].id
    requires forall x, i | x in t.nodes && 0 <= i < |Kids(t.nodes[x])| :: Home(s, Kids(t.nodes[x])[i])
    ensures Indexed(t)
  {
  }

  /** Registering the new topic keeps every listed child reachable (no old
      topic carries the fresh identifier) and makes the new topic reachable. */
  lemma RegisteredIndexed(s: Sheet, st: Ref, title: string, newId: TopicId)
    requires Wf(s) && Indexed(s) && st in s.nodes && FreshId(s, newId) && s.nodes[st].parent.Some?
    ensures var t := Registered(s, st, title, newId);
            Indexed(t) && Home(t, s.nextRef)
  {
    var t := Registered(s, st, title, newId);
    forall x, i | x in t.nodes && 0 <= i < |Kids(t.nodes[x])| ensures Home(t, Kids(t.nodes[x])[i]) {
      assert x != s.nextRef;
      assert t.nodes[x] == s.nodes[x];
      var c := Kids(s.nodes[x])[i];
      assert Home(s, c);
      assert t.nodes[c] == s.nodes[c];
    }
  }

  lemma AppendIndexed(s: Sheet, st: Ref, tp: Ref)
    requires Wf(s) && Indexed(s) && st in s.nodes && tp in s.nodes && s.nodes[tp].parent == Some(st)
    requires Home(s, tp)
    ensures Indexed(AppendChild(s, st, tp))
  {
    var t := AppendChild(s, st, tp);
    var before := Kids(s.nodes[st]);
    AppendKeepsIds(s, st, tp);
    forall x, i | x in t.nodes && 0 <= i < |Kids(t.nodes[x])| ensures Home(s, Kids(t.nodes[x])[i]) {
      if x == st {
        if i < |before| {
          assert Kids(t.nodes[st])[..|before|][i] == before[i];
        }
      } else {
        assert t.nodes[x] == s.nodes[x];
      }
    }
    ListedFromHome(s, t);
  }

  lemma WrapIndexed(s: Sheet, st: Ref, tp: Ref)
    requires Wf(s) && Indexed(s) && st in s.nodes && tp in s.nodes && st != tp
    requires s.nodes[st].parent.Some? && st != Central(s)
    requires s.nodes[tp].parent == Some(st) && s.nodes[tp].children == None
    requires forall x | x in s.nodes :: tp !in Kids(s.nodes[x])
    requires Home(s, tp)
    ensures Indexed(WrapParent(s, st, tp))
  {
    var t := WrapParent(s, st, tp);
    assert LinksOk(s.nodes, st);
    WrapKeepsIds(s, st, tp);
    WrapNodesKeepsLists(s.nodes, st, tp);
    forall x, i | x in t.nodes && 0 <= i < |Kids(t.nodes[x])| ensures Home(s, Kids(t.nodes[x])[i]) {
      if x == tp {
        assert Kids(t.nodes[tp])[i] == Kids(s.nodes[st])[i];
      } else if x != st {
        assert Kids(t.nodes[x]) == Kids(s.nodes[x]);
      }
    }
    ListedFromHome(s, t);
  }

  lemma SiblingIndexed(s: Sheet, st: Ref, tp: Ref, mode: AddMode)
    requires Wf(s) && Indexed(s) && st in s.nodes && tp in s.nodes && st != tp
    requires s.nodes[st].parent.Some? && s.nodes[tp].parent == Some(st)
    requires s.nodes[st].parent != Some(tp) && s.nodes[tp].children == None
    requires forall x | x in s.nodes :: tp !in Kids(s.nodes[x])
    requires Home(s, tp)
    ensures Indexed(InsertSibling(s, st, tp, mode))
  {
    var t := InsertSibling(s, st, tp, mode);
    var p := s.nodes[st].parent.value;
    SiblingKeepsIds(s, st, tp, mode);
    forall x, i | x in t.nodes && 0 <= i < |Kids(t.nodes[x])| ensures Home(s, Kids(t.nodes[x])[i]) {
      var c := Kids(t.nodes[x])[i];
      if x == p {
        var ks := SiblingList(s.nodes[p].children, tp, SameId(s.nodes, s.nodes[st].id), mode);
        assert ks.value[i] == c;
        if c != tp {
          var j :| 0 <= j < |Kids(s.nodes[p])| && Kids(s.nodes[p])[j] == c;
        }
      } else if x != tp {
        assert t.nodes[x] == s.nodes[x];
      }
    }
    ListedFromHome(s, t);
  }

  /** Add keeps every listed child reachable by identifier, the new topic
      included. */
  lemma AddKeepsIndexed(s: Sheet, st: Ref, title: string, modes: seq<AddMode>, newId: TopicId)
    requires Wf(s) && Indexed(s) && st in s.nodes && FreshId(s, newId)
    ensures Indexed(Add(s, st, title, modes, newId).sheet)
  {
    if s.nodes[st].parent.Some? {
      var s1 := Registered(s, st, title, newId);
      var tp := s.nextRef;
      var mode := ModeOf(modes);
      var r := Add(s, st, title, modes, newId);
      RegisteredIndexed(s, st, title, newId);
      if mode == SubMode || s1.resources[CentKey] == st {
        assert r.sheet == AppendChild(s1, st, tp);
        AppendIndexed(s1, st, tp);
      } else if mode == ParentMode {
        assert r.sheet == WrapParent(s1, st, tp);
        WrapIndexed(s1, st, tp);
      } else {
        assert r.sheet == InsertSibling(s1, st, tp, mode);
        SiblingIndexed(s1, st, tp, mode);
      }
    }
  }
}
