/**
 Removal in topic.go: RemoveChildren empties a subtree, dropping every
 descendant's identifier from the index; RemoveByID detaches the children of
 one parent that carry a given identifier, purges their subtrees, compacts the
 parent's list and moves the cursor to the central topic.

 Removed topics stay in the arena (callers may still hold them); only their
 index entries and children lists go.
 */
module Removal {
  import opened Optional
  import opened Splice
  import opened Topics

  /** Topics whose children list is not nil. */
  ghost function BusySet(nodes: map<Ref, Node>): set<Ref> {
    set r | r in nodes && nodes[r].children.Some?
  }

  /** Termination measure of the recursive purge: each level clears one list. */
  ghost function Busy(nodes: map<Ref, Node>): nat {
    |BusySet(nodes)|
  }

  lemma SubsetCard<T>(a: set<T>, b: set<T>)
    requires a <= b
    ensures |a| <= |b|
    decreases |b|
  {
    if a != {} {
      var x :| x in a;
      SubsetCard(a - {x}, b - {x});
    }
  }

  /** The only changes a purge makes: children lists become nil and index
      entries disappear; nothing is added, re-pointed or renamed. */
  ghost predicate Shrinks(s: Sheet, t: Sheet) {
    && t.nodes.Keys == s.nodes.Keys
    && (forall x | x in s.nodes ::
          t.nodes[x] == s.nodes[x] || t.nodes[x] == s.nodes[x].(children := None))
    && t.resources.Keys <= s.resources.Keys
    && (forall k | k in t.resources :: t.resources[k] == s.resources[k])
    && t.counter == s.counter && t.nextRef == s.nextRef
  }

  lemma ShrinksTrans(s: Sheet, m: Sheet, t: Sheet)
    requires Shrinks(s, m) && Shrinks(m, t)
    ensures Shrinks(s, t)
  {
  }

  /** A purge never gives a topic a children list back. */
  lemma ShrinksBusy(s: Sheet, t: Sheet)
    requires Shrinks(s, t)
    ensures Busy(t.nodes) <= Busy(s.nodes)
  {
    SubsetCard(BusySet(t.nodes), BusySet(s.nodes));
  }

  /** Clearing a non-nil list lowers the measure by one. */
  lemma ClearBusy(nodes: map<Ref, Node>, r: Ref)
    requires r in nodes && nodes[r].children.Some?
    ensures Busy(nodes[r := nodes[r].(children := None)]) == Busy(nodes) - 1
  {
    var after := nodes[r := nodes[r].(children := None)];
    assert BusySet(after) == BusySet(nodes) - {r};
  }

  /** Clearing children lists keeps every pointer in place. */
  lemma ShrinksKeepsLinks(s: Sheet, t: Sheet)
    requires Shrinks(s, t) && AllLinksOk(s.nodes)
    ensures AllLinksOk(t.nodes)
  {
    forall r | r in t.nodes ensures LinksOk(t.nodes, r) {
      assert LinksOk(s.nodes, r);
    }
  }

  /** Every list that the purge cleared had its children purged too: their
      identifiers are out of the index and their own lists are nil. */
  ghost predicate Closed(s: Sheet, t: Sheet) {
    forall x | x in s.nodes && x in t.nodes && s.nodes[x].children.Some? && t.nodes[x].children.None? ::
      forall i | 0 <= i < |s.nodes[x].children.value| ::
        var c := s.nodes[x].children.value[i];
        && c in s.nodes && s.nodes[c].id !in t.resources
        && c in t.nodes && t.nodes[c].children.None?
  }

  lemma ClosedTrans(s: Sheet, m: Sheet, t: Sheet)
    requires AllLinksOk(s.nodes)
    requires Shrinks(s, m) && Shrinks(m, t) && Closed(s, m) && Closed(m, t)
    ensures Closed(s, t)
  {
    forall x | x in s.nodes && x in t.nodes && s.nodes[x].children.Some? && t.nodes[x].children.None?
      ensures forall i | 0 <= i < |s.nodes[x].children.value| ::
                var c := s.nodes[x].children.value[i];
                && c in s.nodes && s.nodes[c].id !in t.resources
                && c in t.nodes && t.nodes[c].children.None?
    {
      assert LinksOk(s.nodes, x);
      if m.nodes[x].children.None? {
        forall i | 0 <= i < |s.nodes[x].children.value|
          ensures var c := s.nodes[x].children.value[i];
                  s.nodes[c].id !in t.resources && t.nodes[c].children.None?
        {
          var c := s.nodes[x].children.value[i];
          assert s.nodes[c].id !in m.resources;
        }
      } else {
        assert m.nodes[x] == s.nodes[x];
        forall i | 0 <= i < |s.nodes[x].children.value|
          ensures var c := s.nodes[x].children.value[i];
                  s.nodes[c].id !in t.resources && t.nodes[c].children.None?
        {
          var c := s.nodes[x].children.value[i];
          assert m.nodes[c].id == s.nodes[c].id;
        }
      }
    }
  }

  /** RemoveChildren: clear the receiver's list and purge each listed child
      in order. The list is cleared before the children are visited rather
      than after; on a tree the two orders give the same sheet. */
  function RemoveChildren(s: Sheet, r: Ref): (t: Sheet)
    requires AllLinksOk(s.nodes) && r in s.nodes
    ensures Shrinks(s, t) && AllLinksOk(t.nodes)
    ensures t.nodes[r].children == None
    ensures Busy(t.nodes) <= Busy(s.nodes)
    decreases Busy(s.nodes), 0
  {
    match s.nodes[r].children
    case None => s
    case Some(kids) =>
      assert LinksOk(s.nodes, r);
      var s1 := s.(nodes := s.nodes[r := s.nodes[r].(children := None)]);
      ClearBusy(s.nodes, r);
      ShrinksKeepsLinks(s, s1);
      var t := PurgeAll(s1, kids);
      ShrinksTrans(s, s1, t);
      t
  }

  /** The loop body of RemoveChildren for each listed child: drop its
      identifier from the index, then purge its own children. */
  function PurgeAll(s: Sheet, kids: seq<Ref>): (t: Sheet)
    requires AllLinksOk(s.nodes) && forall i | 0 <= i < |kids| :: kids[i] in s.nodes
    ensures Shrinks(s, t) && AllLinksOk(t.nodes)
    ensures Busy(t.nodes) <= Busy(s.nodes)
    decreases Busy(s.nodes), |kids| + 1
  {
    if |kids| == 0 then s
    else
      var k := kids[0];
      var s1 := s.(resources := s.resources - {s.nodes[k].id});
      var s2 := RemoveChildren(s1, k);
      ShrinksTrans(s, s1, s2);
      var t := PurgeAll(s2, kids[1..]);
      ShrinksTrans(s, s2, t);
      t
  }

  /** Every list the purge clears has its whole child generation purged. */
  lemma {:induction false} RemoveChildrenClosed(s: Sheet, r: Ref)
    requires AllLinksOk(s.nodes) && r in s.nodes
    ensures Closed(s, RemoveChildren(s, r))
    decreases Busy(s.nodes), 0
  {
    match s.nodes[r].children
    case None =>
    case Some(kids) =>
      assert LinksOk(s.nodes, r);
      var s1 := s.(nodes := s.nodes[r := s.nodes[r].(children := None)]);
      ClearBusy(s.nodes, r);
      ShrinksKeepsLinks(s, s1);
      var t := PurgeAll(s1, kids);
      assert RemoveChildren(s, r) == t;
      PurgeAllClosed(s1, kids);
      ClosedAfterClear(s, r, t);
  }

  /** Clearing the list of `r` and then purging each of its children closes
      the whole step. */
  lemma ClosedAfterClear(s: Sheet, r: Ref, t: Sheet)
    requires AllLinksOk(s.nodes) && r in s.nodes && s.nodes[r].children.Some?
    requires var s1 := s.(nodes := s.nodes[r := s.nodes[r].(children := None)]);
             && Shrinks(s1, t) && Closed(s1, t)
             && forall i | 0 <= i < |s.nodes[r].children.value| ::
                  && s.nodes[r].children.value[i] in s1.nodes
                  && s1.nodes[s.nodes[r].children.value[i]].id !in t.resources
                  && t.nodes[s.nodes[r].children.value[i]].children.None?
    ensures Closed(s, t)
  {
    var s1 := s.(nodes := s.nodes[r := s.nodes[r].(children := None)]);
    forall x | x in s.nodes && x in t.nodes && s.nodes[x].children.Some? && t.nodes[x].children.None?
      ensures forall i | 0 <= i < |s.nodes[x].children.value| ::
                var c := s.nodes[x].children.value[i];
                && c in s.nodes && s.nodes[c].id !in t.resources
                && c in t.nodes && t.nodes[c].children.None?
    {
      assert LinksOk(s.nodes, x);
      if x != r {
        assert s1.nodes[x] == s.nodes[x];
      }
    }
  }

  /** Each child handed to the loop body ends up purged, and so does every
      list the loop clears on the way. */
  lemma {:induction false} PurgeAllClosed(s: Sheet, kids: seq<Ref>)
    requires AllLinksOk(s.nodes) && forall i | 0 <= i < |kids| :: kids[i] in s.nodes
    ensures var t := PurgeAll(s, kids);
            && Closed(s, t)
            && forall i | 0 <= i < |kids| ::
                 s.nodes[kids[i]].id !in t.resources && t.nodes[kids[i]].children.None?
    decreases Busy(s.nodes), |kids| + 1
  {
    if |kids| > 0 {
      var k := kids[0];
      var s1 := s.(resources := s.resources - {s.nodes[k].id});
      var s2 := RemoveChildren(s1, k);
      var t := PurgeAll(s2, kids[1..]);
      assert PurgeAll(s, kids) == t;
      RemoveChildrenClosed(s1, k);
      PurgeAllClosed(s2, kids[1..]);
      PurgeStepClosed(s, s1, s2, t, kids);
    }
  }

  /** One round of the purge loop: the first child is purged by
      RemoveChildren, the others by the rest of the loop. */
  lemma PurgeStepClosed(s: Sheet, s1: Sheet, s2: Sheet, t: Sheet, kids: seq<Ref>)
    requires AllLinksOk(s.nodes) && |kids| > 0 && forall i | 0 <= i < |kids| :: kids[i] in s.nodes
    requires s1 == s.(resources := s.resources - {s.nodes[kids[0]].id})
    requires Shrinks(s1, s2) && Closed(s1, s2) && AllLinksOk(s2.nodes)
    requires s2.nodes[kids[0]].children.None?
    requires Shrinks(s2, t) && Closed(s2, t)
    requires forall i | 0 <= i < |kids[1..]| ::
               s2.nodes[kids[1..][i]].id !in t.resources && t.nodes[kids[1..][i]].children.None?
    ensures Closed(s, t)
    ensures forall i | 0 <= i < |kids| ::
              s.nodes[kids[i]].id !in t.resources && t.nodes[kids[i]].children.None?
  {
    var k := kids[0];
    var rest := kids[1..];
    ClosedTrans(s, s1, s2);
    ClosedTrans(s, s2, t);
    forall i | 0 <= i < |kids|
      ensures s.nodes[kids[i]].id !in t.resources && t.nodes[kids[i]].children.None?
    {
      if i == 0 {
        StaysGone(s1, s2, s.nodes[k].id);
        StaysGone(s2, t, s.nodes[k].id);
        StaysPurged(s2, t, k);
      } else {
        assert rest[i - 1] == kids[i];
        KeepsId(s1, s2, kids[i]);
      }
    }
  }

  lemma StaysGone(m: Sheet, t: Sheet, id: TopicId)
    requires Shrinks(m, t) && id !in m.resources
    ensures id !in t.resources
  {
  }

  lemma KeepsId(m: Sheet, t: Sheet, c: Ref)
    requires Shrinks(m, t) && c in m.nodes
    ensures t.nodes[c].id == m.nodes[c].id
  {
  }

  lemma StaysPurged(m: Sheet, t: Sheet, c: Ref)
    requires Shrinks(m, t) && c in m.nodes && m.nodes[c].children.None?
    ensures t.nodes[c].children.None?
  {
  }

  /** A set of topics that contains the children of each of its members; the
      smallest one holding `r` is the subtree of `r`. */
  ghost predicate DownClosed(nodes: map<Ref, Node>, xs: set<Ref>) {
    forall x | x in xs :: x in nodes && forall i | 0 <= i < |Kids(nodes[x])| :: Kids(nodes[x])[i] in xs
  }

  /** Identifiers carried by the topics of `xs`. */
  ghost function IdsOf(nodes: map<Ref, Node>, xs: set<Ref>): set<TopicId> {
    set x | x in xs && x in nodes :: nodes[x].id
  }

  /** Nothing outside `xs` is touched: its topics keep their lists and every
      index entry whose key no topic of `xs` carries survives. */
  ghost predicate OutsideKept(s: Sheet, t: Sheet, xs: set<Ref>) {
    && (forall x | x in s.nodes && x !in xs :: x in t.nodes && t.nodes[x] == s.nodes[x])
    && (forall k | k in s.resources && k !in IdsOf(s.nodes, xs) :: k in t.resources)
  }

  lemma ShrinksKeepsIds(s: Sheet, t: Sheet, xs: set<Ref>)
    requires Shrinks(s, t)
    ensures IdsOf(t.nodes, xs) == IdsOf(s.nodes, xs)
  {
  }

  lemma ShrinksKeepsDownClosed(s: Sheet, t: Sheet, xs: set<Ref>)
    requires Shrinks(s, t) && DownClosed(s.nodes, xs)
    ensures DownClosed(t.nodes, xs)
  {
    forall x | x in xs ensures x in t.nodes && forall i | 0 <= i < |Kids(t.nodes[x])| :: Kids(t.nodes[x])[i] in xs {
      assert Kids(t.nodes[x]) == Kids(s.nodes[x]) || Kids(t.nodes[x]) == [];
    }
  }

  lemma OutsideKeptTrans(s: Sheet, m: Sheet, t: Sheet, xs: set<Ref>)
    requires Shrinks(s, m)
    requires OutsideKept(s, m, xs) && OutsideKept(m, t, xs)
    ensures OutsideKept(s, t, xs)
  {
    ShrinksKeepsIds(s, m, xs);
  }

  /** RemoveChildren of a topic touches nothing outside any down-closed set
      that holds it, in particular nothing outside its subtree. */
  lemma {:induction false} RemoveChildrenFrame(s: Sheet, r: Ref, xs: set<Ref>)
    requires AllLinksOk(s.nodes) && r in xs && DownClosed(s.nodes, xs)
    ensures OutsideKept(s, RemoveChildren(s, r), xs)
    decreases Busy(s.nodes), 0
  {
    match s.nodes[r].children
    case None =>
    case Some(kids) =>
      assert LinksOk(s.nodes, r);
      var s1 := s.(nodes := s.nodes[r := s.nodes[r].(children := None)]);
      ClearBusy(s.nodes, r);
      ShrinksKeepsLinks(s, s1);
      ShrinksKeepsDownClosed(s, s1, xs);
      assert forall i | 0 <= i < |kids| :: kids[i] == Kids(s.nodes[r])[i];
      PurgeAllFrame(s1, kids, xs);
      assert RemoveChildren(s, r) == PurgeAll(s1, kids);
      ClearOutside(s, r, xs, PurgeAll(s1, kids));
  }

  /** Clearing the list of a topic of `xs` touches nothing outside `xs`. */
  lemma ClearOutside(s: Sheet, r: Ref, xs: set<Ref>, t: Sheet)
    requires r in xs && r in s.nodes
    requires OutsideKept(s.(nodes := s.nodes[r := s.nodes[r].(children := None)]), t, xs)
    ensures OutsideKept(s, t, xs)
  {
    var s1 := s.(nodes := s.nodes[r := s.nodes[r].(children := None)]);
    ShrinksKeepsIds(s, s1, xs);
  }

  lemma {:induction false} PurgeAllFrame(s: Sheet, kids: seq<Ref>, xs: set<Ref>)
    requires AllLinksOk(s.nodes) && DownClosed(s.nodes, xs)
    requires forall i | 0 <= i < |kids| :: kids[i] in s.nodes && kids[i] in xs
    ensures OutsideKept(s, PurgeAll(s, kids), xs)
    decreases Busy(s.nodes), |kids| + 1
  {
    if |kids| > 0 {
      var k := kids[0];
      var s1 := s.(resources := s.resources - {s.nodes[k].id});
      assert s.nodes[k].id in IdsOf(s.nodes, xs);
      var s2 := RemoveChildren(s1, k);
      var rest := kids[1..];
      assert forall i | 1 <= i < |kids| :: kids[i] == rest[i - 1];
      assert PurgeAll(s, kids) == PurgeAll(s2, rest);
      RemoveChildrenFrame(s1, k, xs);
      OutsideKeptTrans(s, s1, s2, xs);
      ShrinksTrans(s, s1, s2);
      ShrinksKeepsDownClosed(s, s2, xs);
      TailWithin(kids, s.nodes.Keys, xs);
      assert s2.nodes.Keys == s.nodes.Keys;
      PurgeAllFrame(s2, rest, xs);
      OutsideKeptTrans(s, s2, PurgeAll(s2, rest), xs);
    }
  }

  lemma TailWithin(kids: seq<Ref>, keys: set<Ref>, xs: set<Ref>)
    requires |kids| > 0 && forall i | 0 <= i < |kids| :: kids[i] in keys && kids[i] in xs
    ensures forall i | 0 <= i < |kids[1..]| :: kids[1..][i] in keys && kids[1..][i] in xs
  {
    forall i | 0 <= i < |kids[1..]| ensures kids[1..][i] in keys && kids[1..][i] in xs {
      assert kids[1..][i] == kids[i + 1];
    }
  }

  /** Topics that have a parent. Every listed child is one, so the set is
      down-closed, and none of them carries a sentinel key as identifier. */
  ghost function Parented(nodes: map<Ref, Node>): set<Ref> {
    set x | x in nodes && nodes[x].parent.Some?
  }

  lemma ParentedDownClosed(nodes: map<Ref, Node>)
    requires AllLinksOk(nodes)
    ensures DownClosed(nodes, Parented(nodes))
    ensures forall k | IsSentinel(k) :: k !in IdsOf(nodes, Parented(nodes))
  {
    forall x | x in Parented(nodes)
      ensures x in nodes && forall i | 0 <= i < |Kids(nodes[x])| :: Kids(nodes[x])[i] in Parented(nodes)
    {
      assert LinksOk(nodes, x);
    }
    forall k | IsSentinel(k) ensures k !in IdsOf(nodes, Parented(nodes)) {
      forall x | x in Parented(nodes) ensures nodes[x].id != k {
        assert LinksOk(nodes, x);
      }
    }
  }

  /** The compaction test of RemoveByID: a child survives unless it carries
      the identifier being removed. */
  function Survives(nodes: map<Ref, Node>, cid: TopicId): Ref -> bool {
    (k: Ref) => !SameId(nodes, cid)(k)
  }

  /** The children of `p` that carry `cid`, in list order: the ones the loop
      of RemoveByID drops. */
  function Doomed(nodes: map<Ref, Node>, p: Ref, cid: TopicId): seq<Ref>
    requires p in nodes
  {
    Filter(Kids(nodes[p]), SameId(nodes, cid))
  }

  /** The loop of RemoveByID and the list update after it: every child of
      `p` carrying `cid` loses its index entry and its subtree, and the list
      keeps the other children in order (nil when none is left). */
  function Detach(s: Sheet, p: Ref, cid: TopicId): (t: Sheet)
    requires Wf(s) && p in s.nodes
    ensures Wf(t)
  {
    var kids := Kids(s.nodes[p]);
    var rest := Filter(kids, Survives(s.nodes, cid));
    var s1 := PurgeAll(s, DoomedOk(s, p, cid));
    PurgeKeepsSentinels(s, Doomed(s.nodes, p, cid));
    FilterWithin(kids, Survives(s.nodes, cid));
    var t := s1.(nodes := s1.nodes[p := s1.nodes[p].(children := if |rest| == 0 then None else Some(rest))]);
    DetachKeepsWf(s, s1, p, rest, t);
    t
  }

  /** The doomed children, with the facts the purge needs about them. */
  function DoomedOk(s: Sheet, p: Ref, cid: TopicId): (d: seq<Ref>)
    requires Wf(s) && p in s.nodes
    ensures d == Doomed(s.nodes, p, cid)
    ensures forall i | 0 <= i < |d| :: d[i] in s.nodes && d[i] in Parented(s.nodes)
  {
    DoomedInArena(s.nodes, p, cid);
    Doomed(s.nodes, p, cid)
  }

  /** Detach is the purge of the doomed children followed by the list
      update of `p`. */
  lemma DetachUnfold(s: Sheet, p: Ref, cid: TopicId)
    requires Wf(s) && p in s.nodes
    ensures var rest := Filter(Kids(s.nodes[p]), Survives(s.nodes, cid));
            var s1 := PurgeAll(s, DoomedOk(s, p, cid));
            && Shrinks(s, s1)
            && (forall k | k in s.resources && IsSentinel(k) :: k in s1.resources)
            && Detach(s, p, cid) ==
                 s1.(nodes := s1.nodes[p := s1.nodes[p].(children := if |rest| == 0 then None else Some(rest))])
  {
    DoomedInArena(s.nodes, p, cid);
    PurgeKeepsSentinels(s, Doomed(s.nodes, p, cid));
  }

  /** Detach changes children lists and drops index entries, and nothing
      else; the sentinel entries stay. */
  lemma DetachFrame(s: Sheet, p: Ref, cid: TopicId)
    requires Wf(s) && p in s.nodes
    ensures var t := Detach(s, p, cid);
            && t.nodes.Keys == s.nodes.Keys && t.counter == s.counter && t.nextRef == s.nextRef
            && t.resources.Keys <= s.resources.Keys
            && (forall k | k in t.resources :: t.resources[k] == s.resources[k])
            && (forall k | k in s.resources && IsSentinel(k) :: k in t.resources)
            && (forall x | x in s.nodes :: t.nodes[x] == s.nodes[x].(children := t.nodes[x].children))
  {
    DetachUnfold(s, p, cid);
    var s1 := PurgeAll(s, DoomedOk(s, p, cid));
    var t := Detach(s, p, cid);
    ChildrenOnly(s, s1, p, t.nodes[p].children, t);
  }

  lemma ChildrenOnly(s: Sheet, s1: Sheet, p: Ref, c: Option<seq<Ref>>, t: Sheet)
    requires Shrinks(s, s1) && p in s1.nodes
    requires t == s1.(nodes := s1.nodes[p := s1.nodes[p].(children := c)])
    ensures t.nodes.Keys == s.nodes.Keys && t.counter == s.counter && t.nextRef == s.nextRef
    ensures t.resources.Keys <= s.resources.Keys
    ensures forall k | k in t.resources :: t.resources[k] == s.resources[k]
    ensures forall x | x in s.nodes :: t.nodes[x] == s.nodes[x].(children := t.nodes[x].children)
  {
  }

  lemma DoomedInArena(nodes: map<Ref, Node>, p: Ref, cid: TopicId)
    requires AllLinksOk(nodes) && p in nodes
    ensures forall i | 0 <= i < |Doomed(nodes, p, cid)| ::
              Doomed(nodes, p, cid)[i] in nodes && Doomed(nodes, p, cid)[i] in Parented(nodes)
  {
    var d := Doomed(nodes, p, cid);
    forall i | 0 <= i < |d| ensures d[i] in nodes && d[i] in Parented(nodes) {
      FilterMembers(Kids(nodes[p]), SameId(nodes, cid), d[i]);
      assert LinksOk(nodes, p);
    }
  }

  /** Purging children never drops a sentinel key. */
  lemma PurgeKeepsSentinels(s: Sheet, kids: seq<Ref>)
    requires AllLinksOk(s.nodes)
    requires forall i | 0 <= i < |kids| :: kids[i] in s.nodes && kids[i] in Parented(s.nodes)
    ensures forall k | k in s.resources && IsSentinel(k) ::
              k in PurgeAll(s, kids).resources && PurgeAll(s, kids).resources[k] == s.resources[k]
  {
    ParentedDownClosed(s.nodes);
    PurgeAllFrame(s, kids, Parented(s.nodes));
  }

  /** Rewriting the list of `p` to a sub-list of itself after a purge keeps
      the invariant. */
  lemma DetachKeepsWf(s: Sheet, s1: Sheet, p: Ref, rest: seq<Ref>, t: Sheet)
    requires Wf(s) && p in s.nodes && Shrinks(s, s1) && AllLinksOk(s1.nodes)
    requires forall k | k in s.resources && IsSentinel(k) :: k in s1.resources && s1.resources[k] == s.resources[k]
    requires forall i | 0 <= i < |rest| :: rest[i] in Kids(s.nodes[p])
    requires t == s1.(nodes := s1.nodes[p := s1.nodes[p].(children := if |rest| == 0 then None else Some(rest))])
    ensures Wf(t)
  {
    DetachKeepsIndex(s, s1, p, rest, t);
    DetachKeepsLinks(s, s1, p, rest, t);
  }

  lemma DetachKeepsIndex(s: Sheet, s1: Sheet, p: Ref, rest: seq<Ref>, t: Sheet)
    requires Wf(s) && p in s.nodes && Shrinks(s, s1)
    requires forall k | k in s.resources && IsSentinel(k) :: k in s1.resources && s1.resources[k] == s.resources[k]
    requires t == s1.(nodes := s1.nodes[p := s1.nodes[p].(children := if |rest| == 0 then None else Some(rest))])
    ensures IndexOk(t) && ShapeOk(t)
  {
    ChildrenOnly(s, s1, p, t.nodes[p].children, t);
    ListsOnlyKeepIndex(s, t);
  }

  /** Rewriting children lists and dropping non-sentinel index entries keeps
      the index and the sheet's shape. */
  lemma ListsOnlyKeepIndex(s: Sheet, t: Sheet)
    requires IndexOk(s) && ShapeOk(s)
    requires t.nodes.Keys == s.nodes.Keys && t.nextRef == s.nextRef
    requires t.resources.Keys <= s.resources.Keys
    requires forall k | k in t.resources :: t.resources[k] == s.resources[k]
    requires forall k | k in s.resources && IsSentinel(k) :: k in t.resources
    requires forall x | x in s.nodes :: t.nodes[x] == s.nodes[x].(children := t.nodes[x].children)
    ensures IndexOk(t) && ShapeOk(t)
  {
    assert forall x | x in s.nodes ::
             && t.nodes[x].id == s.nodes[x].id
             && t.nodes[x].parent == s.nodes[x].parent && t.nodes[x].rootTopic == s.nodes[x].rootTopic;
  }

  lemma DetachKeepsLinks(s: Sheet, s1: Sheet, p: Ref, rest: seq<Ref>, t: Sheet)
    requires AllLinksOk(s.nodes) && p in s.nodes && Shrinks(s, s1) && AllLinksOk(s1.nodes)
    requires forall i | 0 <= i < |rest| :: rest[i] in Kids(s.nodes[p])
    requires t == s1.(nodes := s1.nodes[p := s1.nodes[p].(children := if |rest| == 0 then None else Some(rest))])
    ensures AllLinksOk(t.nodes)
  {
    forall r | r in t.nodes ensures LinksOk(t.nodes, r) {
      assert LinksOk(s1.nodes, r);
      if r == p {
        assert LinksOk(s.nodes, p);
        forall i | 0 <= i < |Kids(t.nodes[p])|
          ensures Kids(t.nodes[p])[i] in t.nodes && t.nodes[Kids(t.nodes[p])[i]].parent == Some(p)
        {
          assert rest[i] in Kids(s.nodes[p]);
        }
      }
    }
  }

  /** When RemoveByID changes anything: the identifier is not the centre key,
      it is indexed (seen from an indexed receiver), the topic under it has a
      parent, and some child of that parent carries the identifier. */
  ghost predicate Removes(s: Sheet, st: Ref, cid: TopicId)
    requires Wf(s) && st in s.nodes
  {
    && cid != CentKey && s.nodes[st].indexed && cid in s.resources
    && var q := s.nodes[s.resources[cid]].parent;
       && q.Some? && q.value in s.nodes
       && exists i | 0 <= i < |Kids(s.nodes[q.value])| :: SameId(s.nodes, cid)(Kids(s.nodes[q.value])[i])
  }

  /** RemoveByID: drop every child of the identified topic's parent that
      carries the identifier, with its subtree, and move to the central
      topic; in every other case return the receiver and change nothing. */
  function RemoveByID(s: Sheet, st: Ref, cid: TopicId): (r: Step)
    requires Wf(s) && st in s.nodes
    ensures Wf(r.sheet) && r.topic in r.sheet.nodes
    ensures !Removes(s, st, cid) ==> r == Step(s, st)
    ensures Removes(s, st, cid) ==>
              && r.topic == Central(s) && r.sheet.resources[LastKey] == Central(s)
              && cid !in r.sheet.resources
              && r.sheet.nodes.Keys == s.nodes.Keys
              && r.sheet.counter == s.counter && r.sheet.nextRef == s.nextRef
  {
    if cid == CentKey then Step(s, st)
    else
      match Parent(s, st, [cid])
      case None => Step(s, st)
      case Some(p) =>
        var kids := Kids(s.nodes[p]);
        if |kids| == 0 then Step(s, st)
        else if |Filter(kids, Survives(s.nodes, cid))| == |kids| then
          NoneCarries(s, st, cid, p);
          Step(s, st)
        else
          SomeCarries(s, st, cid, p);
          var t := Detach(s, p, cid);
          DetachDropsId(s, p, cid);
          DetachFrame(s, p, cid);
          On(t, st, [CentKey])
  }

  /** Every child surviving the compaction means no child carries the
      identifier. */
  lemma NoneCarries(s: Sheet, st: Ref, cid: TopicId, p: Ref)
    requires Wf(s) && st in s.nodes && cid != CentKey && p in s.nodes
    requires Parent(s, st, [cid]) == Some(p)
    requires |Filter(Kids(s.nodes[p]), Survives(s.nodes, cid))| == |Kids(s.nodes[p])|
    ensures !Removes(s, st, cid)
  {
    var kids := Kids(s.nodes[p]);
    assert forall j | 0 <= j < |kids| :: Survives(s.nodes, cid)(kids[j]);
  }

  /** Some child dropped by the compaction means some child carries the
      identifier. */
  lemma SomeCarries(s: Sheet, st: Ref, cid: TopicId, p: Ref)
    requires Wf(s) && st in s.nodes && cid != CentKey && p in s.nodes
    requires Parent(s, st, [cid]) == Some(p)
    requires |Filter(Kids(s.nodes[p]), Survives(s.nodes, cid))| != |Kids(s.nodes[p])|
    ensures Removes(s, st, cid) && |Doomed(s.nodes, p, cid)| > 0
  {
    var kids := Kids(s.nodes[p]);
    var j :| 0 <= j < |kids| && !Survives(s.nodes, cid)(kids[j]);
    assert SameId(s.nodes, cid)(kids[j]);
    FilterMembers(kids, SameId(s.nodes, cid), kids[j]);
  }

  /** After the purge nothing is indexed under a dropped identifier. */
  lemma DetachDropsId(s: Sheet, p: Ref, cid: TopicId)
    requires Wf(s) && p in s.nodes && |Doomed(s.nodes, p, cid)| > 0
    ensures cid !in Detach(s, p, cid).resources
  {
    var d := Doomed(s.nodes, p, cid);
    assert SameId(s.nodes, cid)(d[0]);
    DoomedInArena(s.nodes, p, cid);
    PurgeAllClosed(s, d);
  }

  /** A downward path: each topic is listed among the children of the one
      before it. */
  ghost predicate IsPath(nodes: map<Ref, Node>, path: seq<Ref>) {
    && (forall i | 0 <= i < |path| :: path[i] in nodes)
    && (forall i | 0 <= i < |path| - 1 :: path[i + 1] in Kids(nodes[path[i]]))
  }

  /** Below a topic whose list a purge cleared, every descendant lost its
      index entry and its own list. */
  lemma {:induction false} PurgedAlongPath(s: Sheet, t: Sheet, path: seq<Ref>)
    requires Shrinks(s, t) && Closed(s, t) && IsPath(s.nodes, path) && |path| > 0
    requires t.nodes[path[0]].children.None?
    ensures forall i | 0 < i < |path| ::
              s.nodes[path[i]].id !in t.resources && t.nodes[path[i]].children.None?
    decreases |path|
  {
    if |path| > 1 {
      var n := |path|;
      var init := path[..n - 1];
      assert forall i | 0 <= i < |init| :: init[i] == path[i];
      assert IsPath(s.nodes, init);
      PurgedAlongPath(s, t, init);
      var x := path[n - 2];
      var c := path[n - 1];
      assert t.nodes[x].children.None?;
      var j :| 0 <= j < |Kids(s.nodes[x])| && Kids(s.nodes[x])[j] == c;
      assert s.nodes[x].children.Some?;
      assert s.nodes[x].children.value[j] == c;
    }
  }

  /** Every subtree RemoveChildren starts from loses all its index entries. */
  lemma RemoveChildrenPurgesSubtree(s: Sheet, path: seq<Ref>)
    requires AllLinksOk(s.nodes) && IsPath(s.nodes, path) && |path| > 0
    ensures var t := RemoveChildren(s, path[0]);
            forall i | 0 < i < |path| :: s.nodes[path[i]].id !in t.resources
  {
    RemoveChildrenClosed(s, path[0]);
    PurgedAlongPath(s, RemoveChildren(s, path[0]), path);
  }

  /** The parent whose list RemoveByID compacts. */
  ghost function Host(s: Sheet, st: Ref, cid: TopicId): Ref
    requires Wf(s) && st in s.nodes && Removes(s, st, cid)
  {
    s.nodes[s.resources[cid]].parent.value
  }

  /** RemoveByID unfolded: a Detach of the identified parent followed by a
      move to the central topic. */
  lemma RemoveByIDUnfold(s: Sheet, st: Ref, cid: TopicId)
    requires Wf(s) && st in s.nodes && Removes(s, st, cid)
    ensures Host(s, st, cid) in s.nodes
    ensures RemoveByID(s, st, cid) == On(Detach(s, Host(s, st, cid), cid), st, [CentKey])
  {
    var p := Host(s, st, cid);
    assert LinksOk(s.nodes, s.resources[cid]);
    assert Parent(s, st, [cid]) == Some(p);
    var kids := Kids(s.nodes[p]);
    var j :| 0 <= j < |kids| && SameId(s.nodes, cid)(kids[j]);
    assert !Survives(s.nodes, cid)(kids[j]);
    assert |Filter(kids, Survives(s.nodes, cid))| != |kids|;
  }

  /** The parent's list after RemoveByID is its old list without the
      children carrying the identifier, in the same order, and nil when
      nothing is left. */
  lemma RemoveByIDCompacts(s: Sheet, st: Ref, cid: TopicId)
    requires Wf(s) && st in s.nodes && Removes(s, st, cid)
    ensures var p := Host(s, st, cid);
            var rest := Filter(Kids(s.nodes[p]), Survives(s.nodes, cid));
            && p in s.nodes
            && RemoveByID(s, st, cid).sheet.nodes[p].children ==
                 (if |rest| == 0 then None else Some(rest))
            && forall x :: x in rest <==> x in Kids(s.nodes[p]) && !SameId(s.nodes, cid)(x)
  {
    var p := Host(s, st, cid);
    RemoveByIDUnfold(s, st, cid);
    DetachUnfold(s, p, cid);
    forall x ensures x in Filter(Kids(s.nodes[p]), Survives(s.nodes, cid)) <==>
                     x in Kids(s.nodes[p]) && !SameId(s.nodes, cid)(x) {
      FilterMembers(Kids(s.nodes[p]), Survives(s.nodes, cid), x);
    }
  }

  /** Every topic below a removed child, however deep, is out of the index
      afterwards. */
  lemma RemoveByIDPurgesSubtree(s: Sheet, st: Ref, cid: TopicId, path: seq<Ref>)
    requires Wf(s) && st in s.nodes && Removes(s, st, cid)
    requires IsPath(s.nodes, path) && |path| > 0
    requires path[0] in Kids(s.nodes[Host(s, st, cid)]) && s.nodes[path[0]].id == cid
    ensures forall i | 0 <= i < |path| ::
              s.nodes[path[i]].id !in RemoveByID(s, st, cid).sheet.resources
  {
    var p := Host(s, st, cid);
    RemoveByIDUnfold(s, st, cid);
    DetachUnfold(s, p, cid);
    var d := DoomedOk(s, p, cid);
    var s1 := PurgeAll(s, d);
    PurgeAllClosed(s, d);
    FilterMembers(Kids(s.nodes[p]), SameId(s.nodes, cid), path[0]);
    var j :| 0 <= j < |d| && d[j] == path[0];
    assert s1.nodes[path[0]].children.None?;
    PurgedAlongPath(s, s1, path);
    DetachFrame(s, p, cid);
    assert forall i | 0 <= i < |path| :: s.nodes[path[i]].id !in s1.resources;
  }

  /** RemoveByID touches nothing outside the removed subtrees: given any
      down-closed set holding every removed child, the topics outside it
      other than the parent are unchanged, and every index entry whose key
      no topic of the set carries survives (the last-edited entry moves to
      the central topic). */
  lemma RemoveByIDFrame(s: Sheet, st: Ref, cid: TopicId, xs: set<Ref>)
    requires Wf(s) && st in s.nodes && Removes(s, st, cid)
    requires DownClosed(s.nodes, xs)
    requires var kids := Kids(s.nodes[Host(s, st, cid)]);
             forall i | 0 <= i < |kids| :: SameId(s.nodes, cid)(kids[i]) ==> kids[i] in xs
    ensures var r := RemoveByID(s, st, cid).sheet;
            && (forall x | x in s.nodes && x !in xs && x != Host(s, st, cid) ::
                  r.nodes[x] == s.nodes[x])
            && (forall k | k in s.resources && k !in IdsOf(s.nodes, xs) && k != LastKey ::
                  k in r.resources && r.resources[k] == s.resources[k])
  {
    var p := Host(s, st, cid);
    RemoveByIDUnfold(s, st, cid);
    DetachOutside(s, p, cid, xs);
  }

  lemma DetachOutside(s: Sheet, p: Ref, cid: TopicId, xs: set<Ref>)
    requires Wf(s) && p in s.nodes && DownClosed(s.nodes, xs)
    requires var kids := Kids(s.nodes[p]);
             forall i | 0 <= i < |kids| :: SameId(s.nodes, cid)(kids[i]) ==> kids[i] in xs
    ensures var t := Detach(s, p, cid);
            && (forall x | x in s.nodes && x !in xs && x != p :: t.nodes[x] == s.nodes[x])
            && (forall k | k in s.resources && k !in IdsOf(s.nodes, xs) ::
                  k in t.resources && t.resources[k] == s.resources[k])
  {
    DetachUnfold(s, p, cid);
    var d := DoomedOk(s, p, cid);
    forall i | 0 <= i < |d| ensures d[i] in xs {
      FilterMembers(Kids(s.nodes[p]), SameId(s.nodes, cid), d[i]);
    }
    PurgeAllFrame(s, d, xs);
    var s1 := PurgeAll(s, d);
    var t := Detach(s, p, cid);
    OutsideAfterUpdate(s, s1, p, t.nodes[p].children, t, xs);
  }

  lemma OutsideAfterUpdate(s: Sheet, s1: Sheet, p: Ref, c: Option<seq<Ref>>, t: Sheet, xs: set<Ref>)
    requires OutsideKept(s, s1, xs) && p in s1.nodes
    requires t == s1.(nodes := s1.nodes[p := s1.nodes[p].(children := c)])
    ensures forall x | x in s.nodes && x !in xs && x != p :: t.nodes[x] == s.nodes[x]
    ensures forall k | k in s.resources && k !in IdsOf(s.nodes, xs) ::
              k in t.resources && t.resources[k] == s1.resources[k]
  {
  }

  /** A purge that keeps the sentinel entries keeps the sheet invariant. */
  lemma ShrinksKeepsWf(s: Sheet, t: Sheet)
    requires Wf(s) && Shrinks(s, t)
    requires forall k | k in s.resources && IsSentinel(k) :: k in t.resources
    ensures Wf(t)
  {
    assert forall x | x in s.nodes ::
             && x in t.nodes && t.nodes[x].id == s.nodes[x].id
             && t.nodes[x].parent == s.nodes[x].parent && t.nodes[x].rootTopic == s.nodes[x].rootTopic;
    assert IndexOk(t);
    assert ShapeOk(t);
    ShrinksKeepsLinks(s, t);
  }

  /** RemoveChildren, called on any topic of a well-formed sheet, keeps it
      well formed and leaves the sentinel entries where they were. */
  lemma RemoveChildrenKeepsWf(s: Sheet, r: Ref)
    requires Wf(s) && r in s.nodes
    ensures Wf(RemoveChildren(s, r))
    ensures forall k | k in s.resources && IsSentinel(k) ::
              k in RemoveChildren(s, r).resources && RemoveChildren(s, r).resources[k] == s.resources[k]
  {
    if s.nodes[r].children.Some? {
      var kids := s.nodes[r].children.value;
      assert LinksOk(s.nodes, r);
      var s1 := s.(nodes := s.nodes[r := s.nodes[r].(children := None)]);
      ShrinksKeepsLinks(s, s1);
      assert forall i | 0 <= i < |kids| :: kids[i] in s1.nodes && kids[i] in Parented(s1.nodes);
      PurgeKeepsSentinels(s1, kids);
      assert RemoveChildren(s, r) == PurgeAll(s1, kids);
      ShrinksKeepsWf(s, RemoveChildren(s, r));
    }
  }

  /** Every listed child is indexed under its own identifier, except
      children of `p` carrying `cid` once `cid` has left the index: the state
      of a sheet while RemoveByID purges the children of `p`. */
  ghost predicate IndexedBut(s: Sheet, p: Ref, cid: TopicId) {
    forall x, i | x in s.nodes && 0 <= i < |Kids(s.nodes[x])| ::
      || Home(s, Kids(s.nodes[x])[i])
      || (&& x == p && Kids(s.nodes[x])[i] in s.nodes
          && s.nodes[Kids(s.nodes[x])[i]].id == cid && cid !in s.resources)
  }

  /** `k` may lose its index entry: an entry under its identifier is its own,
      and it is listed only as a child of `p` carrying `cid`. */
  ghost predicate Purgeable(s: Sheet, k: Ref, p: Ref, cid: TopicId) {
    && k in s.nodes
    && (s.nodes[k].id in s.resources ==> s.resources[s.nodes[k].id] == k)
    && forall x, i | x in s.nodes && 0 <= i < |Kids(s.nodes[x])| && Kids(s.nodes[x])[i] == k ::
         x == p && s.nodes[k].id == cid
  }

  /** Dropping the identifier of a purgeable topic keeps every other listed
      child reachable. */
  lemma DropKeeps(s: Sheet, k: Ref, p: Ref, cid: TopicId)
    requires IndexedBut(s, p, cid) && Purgeable(s, k, p, cid)
    ensures IndexedBut(s.(resources := s.resources - {s.nodes[k].id}), p, cid)
  {
    var t := s.(resources := s.resources - {s.nodes[k].id});
    forall x, i | x in t.nodes && 0 <= i < |Kids(t.nodes[x])|
      ensures || Home(t, Kids(t.nodes[x])[i])
              || (&& x == p && Kids(t.nodes[x])[i] in t.nodes
                  && t.nodes[Kids(t.nodes[x])[i]].id == cid && cid !in t.resources)
    {
      var c := Kids(s.nodes[x])[i];
      if Home(s, c) && s.nodes[c].id == s.nodes[k].id {
        assert c == k;
      }
    }
  }

  /** A purge step keeps a topic purgeable: lists only disappear and entries
      only leave the index. */
  lemma ShrinksPurgeable(s: Sheet, t: Sheet, k: Ref, p: Ref, cid: TopicId)
    requires Shrinks(s, t) && Purgeable(s, k, p, cid)
    ensures Purgeable(t, k, p, cid)
  {
    forall x, i | x in t.nodes && 0 <= i < |Kids(t.nodes[x])| && Kids(t.nodes[x])[i] == k
      ensures x == p && t.nodes[k].id == cid
    {
      assert Kids(t.nodes[x]) == Kids(s.nodes[x]);
    }
  }

  /** Clearing the list of `r` keeps the other lists reachable and makes
      every former child of `r` purgeable: its only parent is `r`, whose list
      is gone. */
  lemma ClearKeeps(s: Sheet, r: Ref, p: Ref, cid: TopicId)
    requires AllLinksOk(s.nodes) && r in s.nodes && s.nodes[r].children.Some?
    requires IndexedBut(s, p, cid)
    ensures var s1 := s.(nodes := s.nodes[r := s.nodes[r].(children := None)]);
            && IndexedBut(s1, p, cid)
            && forall i | 0 <= i < |s.nodes[r].children.value| ::
                 Purgeable(s1, s.nodes[r].children.value[i], p, cid)
  {
    var s1 := s.(nodes := s.nodes[r := s.nodes[r].(children := None)]);
    var kids := s.nodes[r].children.value;
    assert LinksOk(s.nodes, r);
    forall x, i | x in s1.nodes && 0 <= i < |Kids(s1.nodes[x])|
      ensures || Home(s1, Kids(s1.nodes[x])[i])
              || (&& x == p && Kids(s1.nodes[x])[i] in s1.nodes
                  && s1.nodes[Kids(s1.nodes[x])[i]].id == cid && cid !in s1.resources)
    {
      assert s1.nodes[x] == s.nodes[x];
      var c := Kids(s.nodes[x])[i];
      assert c in s.nodes ==> s1.nodes[c].id == s.nodes[c].id;
    }
    forall j | 0 <= j < |kids| ensures Purgeable(s1, kids[j], p, cid) {
      var k := kids[j];
      assert Kids(s.nodes[r])[j] == k;
      forall x, i | x in s1.nodes && 0 <= i < |Kids(s1.nodes[x])| ensures Kids(s1.nodes[x])[i] != k {
        if x != r {
          assert s1.nodes[x] == s.nodes[x];
          assert LinksOk(s.nodes, x);
          assert s.nodes[x].children.value[i] == Kids(s1.nodes[x])[i];
        }
      }
    }
  }

  /** RemoveChildren keeps every listed child reachable, up to the children
      of `p` already exempt. */
  lemma {:induction false} RemoveChildrenIndexedBut(s: Sheet, r: Ref, p: Ref, cid: TopicId)
    requires AllLinksOk(s.nodes) && r in s.nodes && IndexedBut(s, p, cid)
    ensures IndexedBut(RemoveChildren(s, r), p, cid)
    decreases Busy(s.nodes), 0
  {
    match s.nodes[r].children
    case None =>
    case Some(kids) =>
      assert LinksOk(s.nodes, r);
      var s1 := s.(nodes := s.nodes[r := s.nodes[r].(children := None)]);
      ClearBusy(s.nodes, r);
      ShrinksKeepsLinks(s, s1);
      ClearKeeps(s, r, p, cid);
      PurgeAllIndexedBut(s1, kids, p, cid);
      assert RemoveChildren(s, r) == PurgeAll(s1, kids);
  }

  lemma {:induction false} PurgeAllIndexedBut(s: Sheet, kids: seq<Ref>, p: Ref, cid: TopicId)
    requires AllLinksOk(s.nodes) && forall i | 0 <= i < |kids| :: kids[i] in s.nodes
    requires IndexedBut(s, p, cid) && forall i | 0 <= i < |kids| :: Purgeable(s, kids[i], p, cid)
    ensures IndexedBut(PurgeAll(s, kids), p, cid)
    decreases Busy(s.nodes), |kids| + 1
  {
    if |kids| > 0 {
      var k := kids[0];
      var s1 := s.(resources := s.resources - {s.nodes[k].id});
      DropKeeps(s, k, p, cid);
      RemoveChildrenIndexedBut(s1, k, p, cid);
      var s2 := RemoveChildren(s1, k);
      var rest := kids[1..];
      ShrinksTrans(s, s1, s2);
      forall i | 0 <= i < |rest| ensures rest[i] in s2.nodes && Purgeable(s2, rest[i], p, cid) {
        assert rest[i] == kids[i + 1];
        ShrinksPurgeable(s, s2, rest[i], p, cid);
      }
      PurgeAllIndexedBut(s2, rest, p, cid);
      assert PurgeAll(s, kids) == PurgeAll(s2, rest);
    }
  }

  /** RemoveChildren keeps every listed child reachable by identifier. */
  lemma RemoveChildrenKeepsIndexed(s: Sheet, r: Ref)
    requires Wf(s) && Indexed(s) && r in s.nodes
    ensures Indexed(RemoveChildren(s, r))
  {
    var t := RemoveChildren(s, r);
    RemoveChildrenIndexedBut(s, r, r, CentKey);
    forall x, i | x in t.nodes && 0 <= i < |Kids(t.nodes[x])| ensures Home(t, Kids(t.nodes[x])[i]) {
      var c := Kids(t.nodes[x])[i];
      assert LinksOk(t.nodes, x);
      assert t.nodes[x].children.value[i] == c;
      assert LinksOk(t.nodes, c);
    }
  }

  /** The children RemoveByID purges may lose their entries: each is indexed
      under its own identifier and listed only by `p`. */
  lemma DoomedPurgeable(s: Sheet, p: Ref, cid: TopicId)
    requires Wf(s) && Indexed(s) && p in s.nodes
    ensures forall i | 0 <= i < |Doomed(s.nodes, p, cid)| ::
              Purgeable(s, Doomed(s.nodes, p, cid)[i], p, cid)
  {
    var d := Doomed(s.nodes, p, cid);
    var kids := Kids(s.nodes[p]);
    assert LinksOk(s.nodes, p);
    forall j | 0 <= j < |d| ensures Purgeable(s, d[j], p, cid) {
      var k := d[j];
      FilterMembers(kids, SameId(s.nodes, cid), k);
      var m :| 0 <= m < |kids| && kids[m] == k;
      assert Home(s, kids[m]);
      assert s.nodes[p].children.value[m] == k;
      forall x, i | x in s.nodes && 0 <= i < |Kids(s.nodes[x])| && Kids(s.nodes[x])[i] == k
        ensures x == p && s.nodes[k].id == cid
      {
        assert LinksOk(s.nodes, x);
        assert s.nodes[x].children.value[i] == k;
      }
    }
  }

  /** Detach keeps every listed child reachable, provided the purged
      subtrees do not reach back up to `p` (the doomed children lie in a
      down-closed set without `p`), as on every tree. */
  lemma DetachKeepsIndexed(s: Sheet, p: Ref, cid: TopicId, xs: set<Ref>)
    requires Wf(s) && Indexed(s) && p in s.nodes
    requires DownClosed(s.nodes, xs) && p !in xs
    requires var kids := Kids(s.nodes[p]);
             forall i | 0 <= i < |kids| :: SameId(s.nodes, cid)(kids[i]) ==> kids[i] in xs
    ensures Indexed(Detach(s, p, cid))
  {
    DetachUnfold(s, p, cid);
    var d := DoomedOk(s, p, cid);
    var s1 := PurgeAll(s, d);
    DoomedPurgeable(s, p, cid);
    PurgeAllIndexedBut(s, d, p, cid);
    forall i | 0 <= i < |d| ensures d[i] in xs {
      FilterMembers(Kids(s.nodes[p]), SameId(s.nodes, cid), d[i]);
    }
    PurgeAllFrame(s, d, xs);
    assert s1.nodes[p] == s.nodes[p];
    var t := Detach(s, p, cid);
    CompactKeepsIndexed(s, s1, p, cid, t);
  }

  /** After the purge, rewriting the list of `p` to its survivors leaves
      only reachable children listed. */
  lemma CompactKeepsIndexed(s: Sheet, s1: Sheet, p: Ref, cid: TopicId, t: Sheet)
    requires AllLinksOk(s.nodes) && p in s.nodes && Shrinks(s, s1) && IndexedBut(s1, p, cid)
    requires s1.nodes[p] == s.nodes[p]
    requires var rest := Filter(Kids(s.nodes[p]), Survives(s.nodes, cid));
             t == s1.(nodes := s1.nodes[p := s1.nodes[p].(children := if |rest| == 0 then None else Some(rest))])
    ensures Indexed(t)
  {
    var kids := Kids(s.nodes[p]);
    var rest := Filter(kids, Survives(s.nodes, cid));
    assert LinksOk(s.nodes, p);
    forall x, i | x in t.nodes && 0 <= i < |Kids(t.nodes[x])| ensures Home(t, Kids(t.nodes[x])[i]) {
      var c := Kids(t.nodes[x])[i];
      if x == p {
        assert Kids(t.nodes[p]) == rest && c in rest;
        FilterMembers(kids, Survives(s.nodes, cid), c);
        assert Survives(s.nodes, cid)(c);
        var j :| 0 <= j < |kids| && kids[j] == c;
        assert Kids(s1.nodes[p])[j] == c;
        assert s.nodes[p].children.value[j] == c;
        assert c in s.nodes && !SameId(s.nodes, cid)(c);
        assert s1.nodes[c].id == s.nodes[c].id;
      } else {
        assert Kids(s1.nodes[x])[i] == c;
      }
      assert Home(s1, c);
      assert t.nodes[c].id == s1.nodes[c].id;
    }
  }

  /** RemoveByID keeps every listed child reachable by identifier, provided
      the removed subtrees do not reach back up to the compacted parent. */
  lemma RemoveByIDKeepsIndexed(s: Sheet, st: Ref, cid: TopicId, xs: set<Ref>)
    requires Wf(s) && Indexed(s) && st in s.nodes
    requires Removes(s, st, cid) ==>
               && DownClosed(s.nodes, xs) && Host(s, st, cid) !in xs
               && var kids := Kids(s.nodes[Host(s, st, cid)]);
                  forall i | 0 <= i < |kids| :: SameId(s.nodes, cid)(kids[i]) ==> kids[i] in xs
    ensures Indexed(RemoveByID(s, st, cid).sheet)
  {
    if Removes(s, st, cid) {
      var p := Host(s, st, cid);
      RemoveByIDUnfold(s, st, cid);
      DetachKeepsIndexed(s, p, cid, xs);
      OnKeepsIndexed(Detach(s, p, cid), st, [CentKey]);
    }
  }

  /** On a sheet whose listed children are all indexed, every listed child
      can be reached, asked for its parent and removed through its own
      identifier. */
  lemma ListedIsRemovable(s: Sheet, st: Ref, x: Ref, i: nat)
    requires Wf(s) && Indexed(s) && st in s.nodes && s.nodes[st].indexed
    requires x in s.nodes && i < |Kids(s.nodes[x])|
    ensures var c := Kids(s.nodes[x])[i];
            && On(s, st, [s.nodes[c].id]).topic == c
            && Parent(s, st, [s.nodes[c].id]) == Some(x)
            && Removes(s, st, s.nodes[c].id)
  {
    var c := Kids(s.nodes[x])[i];
    assert Home(s, c);
    assert LinksOk(s.nodes, x);
    assert s.nodes[x].children.value[i] == c;
    assert LinksOk(s.nodes, c);
    assert SameId(s.nodes, s.nodes[c].id)(Kids(s.nodes[x])[i]);
  }
}
