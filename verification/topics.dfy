/**
 The mind-map topic model of topic.go as an immutable arena.

 Every `*Topic` of one sheet is a `Ref` into `Sheet.nodes`; the shared
 `resources` map (identifier to topic) is `Sheet.resources`; the counter that
 the Go code keeps behind the `incr` holder topic is `Sheet.counter`; `nextRef`
 is the next unused reference. Topics removed from the tree stay in the arena,
 because callers may still hold pointers to them.
 */
module Topics {
  import opened Optional

  type Ref = nat
  type TopicId = string

  /** The four sentinel keys of the resource index. */
  const RootKey: TopicId := "root"
  const CentKey: TopicId := ""
  const LastKey: TopicId := "last"
  const IncrKey: TopicId := "incr"

  /** Length of every identifier the identifier source hands out. */
  const TopicIdLen: nat := 26

  /** Bytes in the UTF-8 encoding of one character. */
  function CharBytes(c: char): (n: nat)
    ensures 1 <= n <= 4
    ensures n == 1 <==> c as int < 0x80
  {
    if c as int < 0x80 then 1
    else if c as int < 0x800 then 2
    else if c as int < 0x1_0000 then 3
    else 4
  }

  /** Go's `len` of a string: its length in UTF-8 bytes, not in characters. */
  function ByteLen(k: string): (n: nat)
    ensures |k| <= n <= 4 * |k|
  {
    if |k| == 0 then 0 else CharBytes(k[0]) + ByteLen(k[1..])
  }

  /** The byte length equals the character count exactly on ASCII strings. */
  lemma {:induction false} ByteLenAscii(k: string)
    ensures ByteLen(k) == |k| <==> forall i | 0 <= i < |k| :: k[i] as int < 0x80
  {
    if |k| > 0 {
      ByteLenAscii(k[1..]);
      assert forall i | 1 <= i < |k| :: k[i] == k[1..][i - 1];
    }
  }

  predicate IsSentinel(k: TopicId) {
    k == RootKey || k == CentKey || k == LastKey || k == IncrKey
  }

  /** The opaque layout tag; `Unset` is the zero value a new topic carries. */
  datatype StructureClass = Unset | LogicRight | Named(name: string)

  /** One topic. `parent`, `children` and `rootTopic` are the Go pointers
      (`None` is nil; `Some([])` is a non-nil, empty children list); `indexed`
      says whether the topic's `resources` pointer is the sheet's index (it
      is nil only on the counter holder). */
  datatype Node = Node(
    id: TopicId,
    title: string,
    structureClass: StructureClass,
    parent: Option<Ref>,
    children: Option<seq<Ref>>,
    rootTopic: Option<Ref>,
    indexed: bool)

  datatype Sheet = Sheet(
    nodes: map<Ref, Node>,
    resources: map<TopicId, Ref>,
    counter: nat,
    nextRef: Ref)

  /** A sheet after an operation together with the topic the operation returns. */
  datatype Step = Step(sheet: Sheet, topic: Ref)

  /** The children list of a node, nil read as empty. */
  function Kids(n: Node): seq<Ref> {
    if n.children.Some? then n.children.value else []
  }

  /** Pointer integrity of one node: every pointer lands in the arena, a topic
      that has a parent belongs to the index and carries a content
      identifier, and every listed child points back at its list's owner. */
  ghost predicate LinksOk(nodes: map<Ref, Node>, r: Ref)
    requires r in nodes
  {
    var n := nodes[r];
    && (n.parent.Some? ==> n.parent.value in nodes && n.indexed && !IsSentinel(n.id))
    && (n.rootTopic.Some? ==> n.rootTopic.value in nodes)
    && (n.children.Some? ==>
          forall i | 0 <= i < |n.children.value| ::
            n.children.value[i] in nodes && nodes[n.children.value[i]].parent == Some(r))
  }

  ghost predicate UniqueIds(nodes: map<Ref, Node>) {
    forall x, y | x in nodes && y in nodes && x != y :: nodes[x].id != nodes[y].id
  }

  ghost predicate AllLinksOk(nodes: map<Ref, Node>) {
    forall r {:trigger LinksOk(nodes, r)} | r in nodes :: LinksOk(nodes, r)
  }

  /** The index only points into the arena, the four sentinel keys are
      present and every content key maps to the topic carrying it. */
  ghost predicate IndexOk(s: Sheet) {
    && (forall r | r in s.nodes :: r < s.nextRef)
    && (forall k | k in s.resources :: s.resources[k] in s.nodes)
    && RootKey in s.resources && CentKey in s.resources
    && LastKey in s.resources && IncrKey in s.resources
    && (forall k | k in s.resources && !IsSentinel(k) :: s.nodes[s.resources[k]].id == k)
  }

  /** The sheet node has no parent and holds the central topic, whose parent
      is the sheet node. */
  ghost predicate ShapeOk(s: Sheet)
    requires IndexOk(s)
  {
    && s.nodes[s.resources[RootKey]].parent == None
    && s.nodes[s.resources[RootKey]].rootTopic == Some(s.resources[CentKey])
    && s.nodes[s.resources[CentKey]].parent == Some(s.resources[RootKey])
  }

  /** The standing invariant of a sheet. */
  ghost predicate Wf(s: Sheet) {
    && IndexOk(s)
    && ShapeOk(s)
    && AllLinksOk(s.nodes)
  }

  /** `c` is reachable through the index under its own identifier. */
  ghost predicate Home(s: Sheet, c: Ref) {
    c in s.nodes && s.nodes[c].id in s.resources && s.resources[s.nodes[c].id] == c
  }

  /** Every topic listed as a child is indexed under its own identifier, so
      that On, Parent and RemoveByID reach it. */
  ghost predicate Indexed(s: Sheet) {
    forall x, i | x in s.nodes && 0 <= i < |Kids(s.nodes[x])| :: Home(s, Kids(s.nodes[x])[i])
  }

  /** What the identifier source promises of a new identifier. */
  ghost predicate FreshId(s: Sheet, id: TopicId) {
    && |id| == TopicIdLen && ByteLen(id) == TopicIdLen
    && id !in s.resources
    && forall r | r in s.nodes :: s.nodes[r].id != id
  }

  function Central(s: Sheet): Ref
    requires Wf(s)
  {
    s.resources[CentKey]
  }

  /** NewSheet: the sheet node, the central topic and the counter holder,
      with the central topic registered under the centre and last keys only. */
  function NewSheet(sheetTitle: string, centralTopicTitle: string,
                    structureClass: seq<StructureClass>,
                    sheetId: TopicId, centralId: TopicId): (r: Step)
    requires |sheetId| == TopicIdLen && |centralId| == TopicIdLen && sheetId != centralId
    ensures Wf(r.sheet) && Indexed(r.sheet)
    ensures r.sheet.resources[CentKey] == r.topic && r.sheet.resources[LastKey] == r.topic
    ensures r.sheet.nodes[r.topic].parent == Some(r.sheet.resources[RootKey])
    ensures r.sheet.resources.Keys == {RootKey, CentKey, LastKey, IncrKey}
    ensures r.sheet.counter == 0
    ensures r.sheet.nodes[r.topic].title == centralTopicTitle
    ensures r.sheet.nodes[r.sheet.resources[RootKey]].title == sheetTitle
    ensures r.sheet.nodes[r.topic].structureClass ==
              (if |structureClass| > 0 then structureClass[0] else LogicRight)
    ensures r.sheet.nodes[r.topic].children == None && r.sheet.nodes[r.topic].indexed
  {
    var sc := if |structureClass| > 0 then structureClass[0] else LogicRight;
    var sheet := Node(sheetId, sheetTitle, Unset, None, None, Some(1), true);
    var central := Node(centralId, centralTopicTitle, sc, Some(0), None, None, true);
    var holder := Node("", "", Unset, None, None, None, false);
    var s := Sheet(map[0 := sheet, 1 := central, 2 := holder],
                   map[RootKey := 0, CentKey := 1, LastKey := 1, IncrKey := 2],
                   0, 3);
    Step(s, 1)
  }

  /** The three topics of a new sheet carry distinct identifiers: the two
      given ones (distinct, 26 characters long) and the counter holder's
      empty one. */
  lemma NewSheetUniqueIds(sheetTitle: string, centralTopicTitle: string,
                          structureClass: seq<StructureClass>,
                          sheetId: TopicId, centralId: TopicId)
    requires |sheetId| == TopicIdLen && |centralId| == TopicIdLen && sheetId != centralId
    ensures var nodes := NewSheet(sheetTitle, centralTopicTitle, structureClass, sheetId, centralId).sheet.nodes;
            && nodes.Keys == {0, 1, 2}
            && nodes[0].id == sheetId && nodes[1].id == centralId && nodes[2].id == ""
            && UniqueIds(nodes)
  {
    var nodes := NewSheet(sheetTitle, centralTopicTitle, structureClass, sheetId, centralId).sheet.nodes;
    assert nodes[0].id != nodes[2].id && nodes[1].id != nodes[2].id;
  }

  /** Two versions of a topic that differ at most in title and layout tag. */
  predicate SameLinks(a: Node, b: Node) {
    a.id == b.id && a.parent == b.parent && a.children == b.children
    && a.rootTopic == b.rootTopic && a.indexed == b.indexed
  }

  /** UpSheet: retitle the sheet and its central topic, optionally changing the
      layout tag; nothing else changes. */
  function UpSheet(s: Sheet, st: Ref, sheetTitle: string, centralTopicTitle: string,
                   structureClass: seq<StructureClass>): (t: Sheet)
    requires Wf(s) && st in s.nodes
    ensures Wf(t)
    ensures !s.nodes[st].indexed ==> t == s
    ensures t.resources == s.resources && t.nodes.Keys == s.nodes.Keys
    ensures t.counter == s.counter && t.nextRef == s.nextRef
    ensures s.nodes[st].indexed ==>
              && t.nodes[t.resources[RootKey]].title == sheetTitle
              && t.nodes[Central(t)].title == centralTopicTitle
              && t.nodes[Central(t)].structureClass ==
                   (if |structureClass| > 0 then structureClass[0]
                    else s.nodes[Central(s)].structureClass)
    ensures s.nodes[st].indexed ==>
              && t.nodes[s.resources[RootKey]] == s.nodes[s.resources[RootKey]].(title := sheetTitle)
              && t.nodes[Central(s)] == s.nodes[Central(s)].(
                   title := centralTopicTitle,
                   structureClass := if |structureClass| > 0 then structureClass[0]
                                     else s.nodes[Central(s)].structureClass)
    ensures forall x | x in s.nodes && x != s.resources[RootKey] && x != Central(s) ::
              t.nodes[x] == s.nodes[x]
    ensures forall x | x in s.nodes :: SameLinks(t.nodes[x], s.nodes[x])
  {
    if !s.nodes[st].indexed then s
    else
      var root := s.resources[RootKey];
      var s1 := Relabel(s, root, sheetTitle, s.nodes[root].structureClass);
      var c := s1.nodes[root].rootTopic.value;
      assert c == Central(s);
      var sc := if |structureClass| > 0 then structureClass[0] else s1.nodes[c].structureClass;
      var t := Relabel(s1, c, centralTopicTitle, sc);
      assert forall x | x in s.nodes && x != root && x != c :: t.nodes[x] == s1.nodes[x] == s.nodes[x];
      t
  }

  /** One topic retitled and retagged, everything else as it was. */
  function Relabel(s: Sheet, x: Ref, title: string, sc: StructureClass): (t: Sheet)
    requires Wf(s) && x in s.nodes
    ensures Wf(t)
    ensures t.resources == s.resources && t.counter == s.counter && t.nextRef == s.nextRef
    ensures t.nodes == s.nodes[x := s.nodes[x].(title := title, structureClass := sc)]
  {
    var n := s.nodes[x].(title := title, structureClass := sc);
    RelabelKeepsWf(s, x, n);
    s.(nodes := s.nodes[x := n])
  }

  /** Changing only the title or layout tag of a topic keeps the invariant. */
  lemma RelabelKeepsWf(s: Sheet, x: Ref, n: Node)
    requires Wf(s) && x in s.nodes
    requires n.(title := s.nodes[x].title, structureClass := s.nodes[x].structureClass) == s.nodes[x]
    ensures Wf(s.(nodes := s.nodes[x := n]))
  {
    var t := s.(nodes := s.nodes[x := n]);
    assert t.nodes.Keys == s.nodes.Keys;
    assert forall r | r in t.nodes :: t.nodes[r].id == s.nodes[r].id && t.nodes[r].parent == s.nodes[r].parent;
    assert IndexOk(t);
    assert ShapeOk(t);
    forall r | r in t.nodes ensures LinksOk(t.nodes, r) {
      assert LinksOk(s.nodes, r);
    }
  }

  /** Does a topic carry identifier `id`? The sibling loops of Add compare
      against the acting topic's identifier, RemoveByID against the one to
      delete. */
  function SameId(nodes: map<Ref, Node>, id: TopicId): Ref -> bool {
    (k: Ref) => k in nodes && nodes[k].id == id
  }

  /** The identifier an optional argument selects: the centre key by default. */
  function Selected(componentId: seq<TopicId>): TopicId {
    if |componentId| > 0 then componentId[0] else CentKey
  }

  /** On: move the cursor to the topic indexed under the identifier and return
      it; an unknown identifier leaves everything as is and returns the
      current cursor. */
  function On(s: Sheet, st: Ref, componentId: seq<TopicId>): (r: Step)
    requires Wf(s) && st in s.nodes
    ensures Wf(r.sheet) && r.topic in r.sheet.nodes
    ensures r.sheet.nodes == s.nodes && r.sheet.counter == s.counter && r.sheet.nextRef == s.nextRef
    ensures r.sheet.resources.Keys == s.resources.Keys
    ensures forall k | k in s.resources && k != LastKey :: r.sheet.resources[k] == s.resources[k]
    ensures !s.nodes[st].indexed ==> r == Step(s, st)
    ensures s.nodes[st].indexed ==> r.sheet.resources[LastKey] == r.topic
    ensures s.nodes[st].indexed && Selected(componentId) in s.resources ==>
              r.topic == s.resources[Selected(componentId)]
    ensures Selected(componentId) !in s.resources ==> r.sheet == s
    ensures s.nodes[st].indexed && Selected(componentId) in s.resources ==>
              r.sheet.resources == s.resources[LastKey := r.topic]
  {
    if !s.nodes[st].indexed then Step(s, st)
    else
      var cid := Selected(componentId);
      if cid in s.resources then
        var topic := s.resources[cid];
        Step(s.(resources := s.resources[LastKey := topic]), topic)
      else
        Step(s, s.resources[LastKey])
  }

  /** Parent: the receiver's own parent, or the parent of the topic indexed
      under the given identifier (nil when it is unknown). */
  function Parent(s: Sheet, st: Ref, componentId: seq<TopicId>): (p: Option<Ref>)
    requires Wf(s) && st in s.nodes
    ensures p.Some? ==> p.value in s.nodes
    ensures |componentId| == 0 ==> p == s.nodes[st].parent
    ensures |componentId| > 0 && p.Some? ==>
              s.nodes[st].indexed && componentId[0] in s.resources
    ensures |componentId| > 0 && s.nodes[st].indexed && componentId[0] in s.resources ==>
              p == s.nodes[s.resources[componentId[0]]].parent
  {
    assert LinksOk(s.nodes, st);
    if |componentId| == 0 then s.nodes[st].parent
    else if s.nodes[st].indexed && componentId[0] in s.resources then
      assert LinksOk(s.nodes, s.resources[componentId[0]]);
      s.nodes[s.resources[componentId[0]]].parent
    else None
  }

  /** A fresh sheet behaves as the caller expects: navigating with no argument
      lands on the central topic, whose parent is the sheet node. */
  lemma NewSheetNavigation(sheetTitle: string, centralTopicTitle: string,
                           sheetId: TopicId, centralId: TopicId)
    requires |sheetId| == TopicIdLen && |centralId| == TopicIdLen && sheetId != centralId
    ensures var r := NewSheet(sheetTitle, centralTopicTitle, [], sheetId, centralId);
            && On(r.sheet, r.topic, []).topic == r.topic
            && Parent(r.sheet, r.topic, []) == Some(r.sheet.resources[RootKey])
            && r.sheet.nodes[r.sheet.resources[RootKey]].rootTopic == Some(r.topic)
  {
  }

  /** Focusing is idempotent: a second On with the same argument changes
      nothing and returns the same topic. */
  lemma OnIdempotent(s: Sheet, st: Ref, componentId: seq<TopicId>)
    requires Wf(s) && st in s.nodes
    ensures On(On(s, st, componentId).sheet, st, componentId) == On(s, st, componentId)
  {
  }

  /** The topic On returns is the cursor afterwards: navigating to the last
      key from any indexed topic returns it again. */
  lemma OnThenLast(s: Sheet, st: Ref, other: Ref, componentId: seq<TopicId>)
    requires Wf(s) && st in s.nodes && other in s.nodes && s.nodes[other].indexed
    ensures var r := On(s, st, componentId);
            s.nodes[st].indexed ==> On(r.sheet, other, [LastKey]).topic == r.topic
  {
  }

  /** The parent found by identifier is the parent of the topic On moves to:
      Parent(id) asks the same question as On(id) followed by Parent(). */
  lemma ParentThroughOn(s: Sheet, st: Ref, id: TopicId)
    requires Wf(s) && st in s.nodes && s.nodes[st].indexed && id in s.resources
    ensures var r := On(s, st, [id]);
            Parent(r.sheet, r.topic, []) == Parent(s, st, [id])
  {
  }

  /** On moves only the last-edited entry, which no listed child carries. */
  lemma OnKeepsIndexed(s: Sheet, st: Ref, componentId: seq<TopicId>)
    requires Wf(s) && Indexed(s) && st in s.nodes
    ensures Indexed(On(s, st, componentId).sheet)
  {
    var t := On(s, st, componentId).sheet;
    forall x, i | x in t.nodes && 0 <= i < |Kids(t.nodes[x])|
      ensures Home(t, Kids(t.nodes[x])[i])
    {
      var c := Kids(s.nodes[x])[i];
      assert LinksOk(s.nodes, x);
      assert LinksOk(s.nodes, c);
      assert Home(s, c);
    }
  }

  /** UpSheet rewrites titles and a layout tag only, so every listed child
      stays reachable. */
  lemma UpSheetKeepsIndexed(s: Sheet, st: Ref, sheetTitle: string, centralTopicTitle: string,
                            structureClass: seq<StructureClass>)
    requires Wf(s) && Indexed(s) && st in s.nodes
    ensures Indexed(UpSheet(s, st, sheetTitle, centralTopicTitle, structureClass))
  {
    var t := UpSheet(s, st, sheetTitle, centralTopicTitle, structureClass);
    forall x, i | x in t.nodes && 0 <= i < |Kids(t.nodes[x])|
      ensures Home(t, Kids(t.nodes[x])[i])
    {
      assert SameLinks(t.nodes[x], s.nodes[x]);
      var c := Kids(s.nodes[x])[i];
      assert Home(s, c);
      assert SameLinks(t.nodes[c], s.nodes[c]);
    }
  }
}
