# xmind topic tree engine in Dafny

This project models the tree-mutation engine of the Go `xmind` package
(`topic.go`). A sheet is built from topics. They share one resource index
that maps identifiers to topics. The engine covers:

- sheet creation (`NewSheet`, `UpSheet`);
- cursor navigation (`On`, `OnTitle`, `Parent`);
- the four insertion modes of `Add`;
- cascading removal (`Remove`, `RemoveByID`, `RemoveChildren`);
- title lookup (`CId`, `CIds`);
- the subtree adoption walk `upChildren`.

The Go pointers become an immutable arena. Every `*Topic` of a sheet is a
`Ref` into `Sheet.nodes`. The shared index is `Sheet.resources`. The counter
kept behind the `incr` holder topic is `Sheet.counter`. A nil children
pointer (`None`) and an empty children list (`Some([])`) are kept apart, as
in the Go code. Removed topics stay in the arena, because callers may still
hold pointers to them. Only their index entries and children lists go.

The standing invariant `Topics.Wf` has three parts:

- the index points into the arena, the four sentinel keys are present, and
  every content key maps to the topic that carries it;
- the sheet node holds the central topic, and the central topic's parent is
  the sheet node;
- every listed child points back at its parent, and every topic that has a
  parent is indexed and carries a content identifier.

Every operation is proved to preserve `Wf`.

A second invariant, `Topics.Indexed`, is kept apart from `Wf`. It says that
every listed child is indexed under its own identifier, so `On`, `Parent`
and `RemoveByID` can reach it (`Removal.ListedIsRemovable`). `NewSheet`
establishes it. `On`, `UpSheet`, `Add` and `RemoveChildren` preserve it.
`RemoveByID` preserves it when the removed subtrees do not reach back up to
the compacted parent, as on every tree. `upChildren` does not always
preserve it: a decoded identifier that repeats overwrites the earlier index
entry (`Grafting.UpChildrenDuplicateHides`).

Files:

- `optional.dfy`: the option type.
- `topics.dfy`: the data model, the sentinel keys, `NewSheet`, `UpSheet`,
  `On` and `Parent`.
- `splice.dfy`: the sequence loops of `Add` and `RemoveByID`. Each loop is
  proved equal to a declarative definition.
- `decimal.dfy`: the `%d` rendering used for automatic titles.
- `insertion.dfy`: `Add` and its modes.
- `removal.dfy`: `RemoveChildren` and `RemoveByID`.
- `lookup.dfy`: `CId`, `CIds`, `OnTitle` and `Remove`.
- `graft.dfy`: `upChildren`.

Where the model reads the code literally:

- `CId` can never find the central topic by its title. `NewSheet` indexes
  the central topic only under the centre key `""` and the last key
  `"last"`. Neither key has content-identifier length. So `CId` of the
  central title answers `"last"`, not the centre key. The model follows the
  code; see `Lookup.NewSheetMatchesNothing`.
- With Before or After, when the receiver is missing from its parent's list,
  the new topic lands at the head of the list.
- A mode byte above 3, on a receiver other than the central topic whose
  parent already has a children list, registers the new topic, but no list
  holds it. When the parent's list is nil, the new topic becomes its only
  child whatever the mode (topic.go lines 182-185).
- `CId` and `CIds` recognise a content identifier by its length in UTF-8
  bytes, which is what Go's `len` counts on a string (`Topics.ByteLen`).
- `CId` and `CIds` scan the index in map order, which is unspecified. They
  are methods that pick the next key nondeterministically. Their contracts
  hold for every order.

## Model

| member | source | states |
|---|---|---|
| Topics.NewSheet | topic.go:21-46 | The new sheet is well formed, and every listed child is indexed under its own identifier. The returned central topic is indexed under the centre and last keys, and its parent is the sheet node under the root key. The index holds exactly the four sentinel keys. The counter starts at 0. The layout tag is the first optional argument, or LogicRight when none is given. The central topic starts with a nil children list and shares the sheet's index. |
| Topics.NewSheetUniqueIds | topic.go:21-46 | The three topics of a new sheet carry distinct identifiers: the sheet identifier, the central identifier and the counter holder's empty one. |
| Topics.NewSheetNavigation | topic.go:73-117 | On a fresh sheet, `On()` with no argument returns the central topic. `Parent()` returns the sheet node, and the sheet node's root topic is the central topic. |
| Topics.UpSheet | topic.go:53-66 | From an indexed receiver, the sheet and central titles are replaced. The layout tag changes only when one is passed. Every other field of the sheet node and the central topic, the sheet node's layout tag included, is kept. A receiver without an index changes nothing. No other topic changes, and no link or index entry changes. |
| Topics.UpSheetKeepsIndexed | topic.go:53-66 | UpSheet keeps every listed child reachable by its identifier. |
| Topics.RelabelKeepsWf | topic.go:58-64 | Changing only a topic's title or layout tag keeps the sheet invariant. |
| Topics.On | topic.go:73-88 | A known identifier becomes the last-edited entry and is returned; no argument means the centre key. In that case the index is the old one with the last key moved to the returned topic. An unknown identifier leaves the sheet unchanged and returns the current last-edited topic. A receiver without an index returns itself. Only the last key can move. |
| Topics.OnKeepsIndexed | topic.go:73-88 | On moves only the last-edited entry, so every listed child stays reachable by its identifier. |
| Topics.ParentThroughOn | topic.go:101-117 | Asking for the parent of an identifier gives the same answer as moving to it with On and asking for the parent with no argument. |
| Topics.ByteLen | topic.go:296 | The byte length of a string lies between its character count and four times that count. |
| Topics.ByteLenAscii | topic.go:296 | The byte length equals the character count exactly when every character is ASCII. |
| Topics.OnIdempotent | topic.go:73-88 | Repeating On with the same argument changes nothing further and returns the same topic. |
| Topics.OnThenLast | topic.go:84-87 | The topic On returns is the cursor afterwards: navigating to the last key from any indexed topic returns it. |
| Topics.Parent | topic.go:101-117 | With no argument, the result is the receiver's own parent. With an identifier, it is the parent of the topic indexed under it, or nil when that identifier is unknown or the receiver has no index. A result is always a topic of the arena. |
| Insertion.Add | topic.go:134-208 | A topic without a parent (the sheet node) refuses, and nothing changes. Otherwise the fresh identifier is indexed at the new topic, exactly one topic is added, and an empty title advances the counter by exactly one. The sheet stays well formed. |
| Insertion.AutoTitle | topic.go:141-146 | A non-empty title is kept and the counter does not move. An empty title advances the counter by one when the counter holder is indexed. |
| Insertion.AutoTitleReadsBack | topic.go:141-146 | An automatic title is "Topic " followed by decimal digits, and reading the digits back gives the advanced counter. |
| Insertion.Register | topic.go:152-156 | The new topic is allocated at the next reference with the fresh identifier, the title, no children and the receiver as parent. The index gains exactly that entry, and no existing topic changes. |
| Insertion.AppendChild | topic.go:159-166 | The receiver's list gains the new topic at its end, and the earlier children keep their order. A nil list becomes a one-element list. No other topic and no index entry changes. |
| Insertion.ReparentOnlyParents | topic.go:173-177 | The reparenting loop points every listed topic at the new parent and changes nothing else about any topic. |
| Insertion.WrapNodesKeepsLists | topic.go:169-177 | Parent mode gives the receiver the list `[new]` and the new topic the receiver's old list. Every other list is unchanged. |
| Insertion.WrapNodesKeepsIds | topic.go:169-177 | Parent mode changes no topic's identifier. |
| Insertion.SiblingList | topic.go:182-206 | A nil parent list becomes `[new]`. Before and After give the splices of the sibling loops. Any other mode byte keeps the list. Every element of the result is the new topic or an old sibling. |
| Insertion.AddKeepsIndexed | topic.go:152-207 | Add keeps every listed child reachable by its identifier, the new topic included. |
| Insertion.RegisteredIndexed | topic.go:154-156 | Registering the new topic keeps every listed child reachable, because no old topic carries the fresh identifier. The new topic becomes reachable. |
| Insertion.Registered | topic.go:141-156 | The new topic carries the fresh identifier and the title, or "Topic n" with the advanced counter when the title is empty. Its parent is the receiver. It is listed nowhere yet, and no existing topic changes. |
| Insertion.AddSubAppends | topic.go:158-167 | In Sub mode, and in every mode on the central topic, the new topic is appended to the receiver's list. A nil list becomes `[new]`. Earlier children keep their order, and the receiver is returned. |
| Insertion.AddParentWraps | topic.go:169-179 | In Parent mode the receiver and the new topic swap titles. The new topic takes over the receiver's children, and those children point back at it. The receiver's list becomes `[new]`, and the new topic is returned. As whole records: the new topic is exactly the registered topic with the receiver's title and list. The receiver changes only its title and list, and keeps its identifier, parent, layout tag, root topic and indexed flag. Each moved child changes only its parent link. Every other topic is unchanged. |
| Insertion.AddSiblingSplices | topic.go:181-207 | In any other mode the new topic's parent becomes the receiver's parent. That parent's list becomes the declarative splice `SiblingList` for the mode: nil gives `[new]`, Before and After give the insertions of the sibling loops, and any other byte leaves the list unchanged. |
| Insertion.AddBeforeIsAdjacent | topic.go:188-194 | With unique identifiers, Before puts the new topic immediately in front of the receiver. Removing it gives the old list back. |
| Insertion.AddAfterIsAdjacent | topic.go:195-201 | With unique identifiers, After puts the new topic immediately behind the receiver. Removing it gives the old list back. |
| Insertion.AddSiblingWithoutAnchor | topic.go:183-201 | When the receiver is missing from its parent's list, both Before and After put the new topic at the head of the list. |
| Insertion.AddUnknownModeOrphans | topic.go:181-204 | On a receiver other than the central topic whose parent already has a children list, a mode byte above 3 indexes the new topic and points it at the receiver's parent, but no list holds it. |
| Insertion.AutoTitlesDiffer | topic.go:141-146 | Automatic titles drawn at different counter values differ, so a run of Adds with empty titles never repeats a title. |
| Insertion.AddKeepsIds | topic.go:152-207 | Add never changes the identifier of an existing topic. |
| Insertion.AddKeepsUniqueIds | topic.go:152-154 | Given a fresh identifier, Add keeps the identifiers of the arena pairwise distinct. |
| Insertion.WrapParent | topic.go:169-179 | The Parent-mode rewrite keeps the invariant. It swaps titles, transfers the children and repairs their parent links. As whole records: the receiver changes only its title and list. The new topic changes only its title and list. A moved child changes only its parent link. Topics outside these are unchanged. The exception is a receiver listed among its own children, which is possible only on a cyclic arena: it is reparented too, as in the Go loop. |
| Insertion.InsertSibling | topic.go:181-207 | The sibling rewrite keeps the invariant. Only the parent's list and the new topic's parent link change. |
| Splice.InsertBefore | topic.go:188-194 | The element sits at the slot of the last anchor, just before that anchor, or at the head when there is no anchor. Removing it restores the input. |
| Splice.InsertAfter | topic.go:195-201 | The element sits just after the last anchor, or at the head when there is no anchor. Removing it restores the input. |
| Splice.BubbleBefore | topic.go:184-194 | The tail-to-head swap loop of Before computes exactly InsertBefore. |
| Splice.BubbleAfter | topic.go:184-201 | The tail-to-head swap loop of After computes exactly InsertAfter. |
| Splice.LastMatch | topic.go:189-198 | The first match a tail scan meets is the last index satisfying the test, and no later element satisfies it. None means no element satisfies it. |
| Splice.RemoveInsert | topic.go:184-201 | Inserting and then removing at the same slot gives the list back. |
| Splice.Filter | topic.go:235-244 | Every kept element satisfies the test. The output is as long as the input exactly when every element is kept, and then it equals the input. |
| Splice.FilterMembers | topic.go:235-244 | An element survives filtering exactly when it occurs in the input and is kept. |
| Splice.FilterConcat | topic.go:235-244 | Filtering distributes over concatenation, so the relative order of kept elements is preserved. |
| Splice.Compact | topic.go:235-252 | The in-place compaction loop leaves the filtered list in the prefix up to the write cursor. |
| Decimal.Show | topic.go:145 | The `%d` rendering is a non-empty string of decimal digits. It ends with the number's last decimal digit, it is one character long exactly when the number is below 10, and it starts with `0` only for zero. |
| Decimal.ShowValue | topic.go:145 | Reading the rendering back as a decimal numeral gives the number. |
| Decimal.ShowInjective | topic.go:145 | Different counters render differently. |
| Removal.RemoveChildren | topic.go:259-267 | The receiver's list becomes nil. The purge only clears lists and drops index entries: nothing is added, re-pointed or renamed. Pointer integrity is kept. |
| Removal.PurgeAll | topic.go:261-264 | The loop body of RemoveChildren over a list: same shrink-only effect, and pointer integrity is kept. |
| Removal.RemoveChildrenClosed | topic.go:259-267 | Every list the purge clears has its whole child generation removed from the index and emptied. |
| Removal.RemoveChildrenPurgesSubtree | topic.go:259-267 | Every descendant of the receiver, at any depth, loses its index entry. |
| Removal.RemoveChildrenFrame | topic.go:259-267 | Nothing outside any down-closed set holding the receiver is touched. Index keys not carried by that set survive. |
| Removal.RemoveChildrenKeepsWf | topic.go:259-267 | From any topic of a well-formed sheet, the sheet stays well formed and the sentinel entries stay where they were. |
| Removal.RemoveChildrenKeepsIndexed | topic.go:259-267 | RemoveChildren keeps every listed child reachable by its identifier. |
| Removal.RemoveChildrenIndexedBut | topic.go:259-267 | While RemoveByID purges the children of a parent, RemoveChildren keeps every other listed child reachable. |
| Removal.RemoveByID | topic.go:225-256 | A removal happens exactly when the identifier is not the centre key, it is indexed from an indexed receiver, its topic has a parent, and some child of that parent carries it. Otherwise the receiver is returned and nothing changes. After a removal the identifier is out of the index, the cursor and the returned topic are the central topic, no topic is created, and the sheet stays well formed. |
| Removal.RemoveByIDCompacts | topic.go:234-252 | The parent's new list is its old list without the children carrying the identifier, in the same order. It is nil when nothing is left. Membership holds in both directions. |
| Removal.RemoveByIDPurgesSubtree | topic.go:237-243 | Every topic on any downward path from a removed child is out of the index afterwards. |
| Removal.RemoveByIDFrame | topic.go:225-256 | Topics outside the removed subtrees, other than the parent, are unchanged. Every index entry whose key the removed subtrees do not carry survives, except the last key. |
| Removal.RemoveByIDKeepsIndexed | topic.go:225-256 | RemoveByID keeps every listed child reachable by its identifier when the removed subtrees do not reach back up to the compacted parent. |
| Removal.DetachKeepsIndexed | topic.go:234-252 | Purging the doomed children and compacting the parent's list leaves only reachable children listed. |
| Removal.ListedIsRemovable | topic.go:225-256 | On a sheet whose listed children are all indexed, On reaches every listed child by its identifier, Parent finds its owner, and RemoveByID removes it. |
| Removal.Detach | topic.go:234-252 | The removal loop and the list update keep the sheet invariant. |
| Removal.DetachFrame | topic.go:234-252 | Detach changes children lists and drops index entries, and nothing else. The sentinel entries stay. |
| Removal.DetachDropsId | topic.go:237-239 | Once some child carries the identifier, the identifier is no longer indexed. |
| Removal.NoneCarries | topic.go:245-247 | When every child survives the compaction, no child carries the identifier, so nothing is removed. |
| Removal.SomeCarries | topic.go:245-255 | When some child is dropped by the compaction, a removal happens. |
| Lookup.CId | topic.go:288-302 | An empty title gives the centre key. Otherwise the answer is a content identifier, recognised by its byte length, whose topic carries the title, and it is the last key exactly when no such identifier exists. A receiver without an index always gets the last key. |
| Lookup.CIds | topic.go:309-325 | An empty title gives `[centre key]`. When there is no match, or the receiver has no index, the result is `[last key]`. Otherwise the result holds exactly the matching content identifiers, recognised by their byte length, each once. |
| Lookup.OnTitle | topic.go:95-97 | An empty title goes to the central topic and makes it the cursor. A found title makes a topic indexed under a matching identifier the cursor. In both cases the index is the old one with the last key moved. An unknown title stays on the last-edited topic and changes nothing. The arena, the counter and every other index entry are untouched. |
| Lookup.Remove | topic.go:215-217 | An empty or unknown title removes nothing. Otherwise the result is RemoveByID of some identifier whose topic carries the title. |
| Lookup.SentinelRemovesNothing | topic.go:225-256 | No child ever carries a sentinel key as its identifier, so removal by a sentinel key is a no-op. |
| Lookup.NewSheetMatchesNothing | topic.go:21-46 | On a new sheet no title matches any index key, because the central topic is indexed only under sentinel keys. |
| Grafting.Graft | topic.go:272-279 | Grafting one decoded tree keeps the old arena and allocates exactly one node per tree node. It consumes the first `Blanks(t)` identifiers of the fresh supply, one per blank node, and the counter does not move. Which node gets which identifier is stated by Grafting.GraftBlankIds. |
| Grafting.GraftAll | topic.go:272-279 | The same facts for the loop over a list of decoded children, with one reference per child and the first `BlanksAll(ts)` supply identifiers consumed. |
| Grafting.GraftBlankIds | topic.go:273-277 | The blank nodes of a grafted tree, read in pre-order, carry exactly the first `Blanks(t)` supply identifiers, one each and in supply order. So a supply without repeats gives every blank node its own identifier. |
| Grafting.GraftAllBlankIds | topic.go:272-279 | The same for a list of decoded children: across the list, tree after tree, the blank nodes carry the supply's first `BlanksAll(ts)` identifiers in pre-order. |
| Grafting.UpChildren | topic.go:270-281 | A nil children pointer changes nothing. A list has its trees grafted and becomes the receiver's list. No earlier topic other than the receiver changes. |
| Grafting.UpChildrenHolds | topic.go:270-281 | Afterwards the receiver's list reproduces the decoded children tree for tree: titles, layout tags, given identifiers and the nil-or-list shape. Every child points back at its parent. |
| Grafting.GraftAllHolds | topic.go:272-279 | Each grafted reference reproduces its tree and points back at the parent. |
| Grafting.UpChildrenRegisters | topic.go:273-276 | Each new node is indexed, and its identifier is an index key. No index key is lost. An entry either is untouched or points at a new node carrying the key. The first `BlanksAll(ts)` supply identifiers are consumed, and the rest of the supply is returned. |
| Grafting.UpChildrenPreOrder | topic.go:270-280 | The blank nodes below the receiver, read in pre-order, carry exactly the first `BlanksAll(ts)` supply identifiers, one each and in supply order. |
| Grafting.IdForAvoidsSentinels | topic.go:273-275 | A grafted topic keeps a given identifier. A blank one takes the next fresh identifier, so it never lands on the centre key. |
| Grafting.UpChildrenDuplicateHides | topic.go:270-281 | Two decoded siblings carrying the same identifier are both listed, but the index keeps only the later one, so upChildren can leave a listed topic unreachable. |
| Grafting.UpChildrenKeepsWf | topic.go:270-281 | upChildren keeps the sheet well formed when the decoded identifiers and the identifier source avoid the sentinel keys. |
| Grafting.GraftGrows | topic.go:272-279 | Grafting a tree whose identifiers avoid the sentinel keys grows the sheet below its parent. Old nodes are kept, every reserved reference holds a well-linked new node, and no index entry is lost or mis-pointed. |

## Left out

- Nil receivers: every operation is modelled on a receiver that is a topic of the arena. The Go nil checks return nil, and there is no arena value for that.
- Identifier generation (`GetId`) and its alphabet: fresh identifiers are parameters. `Add` requires `FreshId`: content length in characters and in bytes, not indexed, carried by no topic. `upChildren` takes a supply of non-sentinel identifiers.
- The value of `TopicIdLen` is defined outside `topic.go`. It is fixed at 26 here. Only its difference from the byte lengths of the four sentinel keys matters.
- The concrete `StructureClass` constants: the tag is an opaque datatype with a zero value and a default.
- Serialization, the other files of the package, and concurrency.
- Go map iteration order: `CId` and `CIds` pick keys nondeterministically.
- Slice aliasing of `append` on a shared backing array: lists are values.
- Cyclic input to `upChildren`: decoded trees are an inductive datatype, so the walk terminates structurally. The Go walk would not terminate on a cycle.
- Counter overflow: the counter is an unbounded `nat`. The Go `int` would wrap only after 2^63 auto-titled insertions.
- Removal.RemoveChildren: clears the receiver's list before visiting its children instead of after. The two orders give the same sheet on acyclic sheets, which are the sheets these operations build from `NewSheet`; the model does not prove acyclicity. The order only matters on a cyclic arena, where the Go code would not terminate.
- Grafting.UpChildren: does not rewrite identifiers in place, because decoded trees are values. It allocates arena nodes and records the chosen identifier in each node. It requires an indexed receiver; the Go code would write into a nil map and panic.
- Grafting.UpChildrenRegisters: stated for decoded identifiers that avoid the sentinel keys. An explicit `"root"`, `"last"` or `"incr"` identifier would overwrite a sentinel entry, and the sheet would no longer satisfy `Wf`.
- Grafting.UpChildrenKeepsWf: requires decoded identifiers that avoid the sentinel keys, for the same reason.
- Removal.RemoveByIDKeepsIndexed: requires the removed subtrees to lie in a down-closed set without the compacted parent. On a cyclic arena the purge could clear that parent's surviving children, but there the Go recursion would not terminate.
- Grafting.UpChildren: no lemma says it preserves `Indexed`, because it does not. A decoded identifier that repeats, or that equals one already indexed, overwrites the earlier entry, as in the Go code. `Grafting.UpChildrenDuplicateHides` shows this on a concrete sheet.
- Insertion.AddBeforeIsAdjacent: assumes unique identifiers. With duplicates, the sibling loops anchor at the last sibling carrying the receiver's identifier, which `Insertion.AddSiblingSplices` states.
- Insertion.AddAfterIsAdjacent: assumes unique identifiers, for the same reason.
- Uniqueness of identifiers is not part of `Wf`. The Go code does not enforce it for decoded trees. `Insertion.AddKeepsUniqueIds` shows that `Add` preserves it.
