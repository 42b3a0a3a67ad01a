/**
 Lookup by title in topic.go: CId and CIds scan the resource index for
 content identifiers whose topic carries a title; OnTitle and Remove combine
 a lookup with navigation or removal. Go iterates a map in an unspecified
 order, so the scans are methods that pick the next key nondeterministically;
 their contracts hold for every order.
 */
module Lookup {
  import opened Optional
  import opened Topics
  import opened Removal

  /** A key the scans accept: a content identifier, recognised by its length
      in bytes (sentinel keys are shorter), whose topic carries the title. */
  ghost predicate Hit(s: Sheet, k: TopicId, title: string)
    requires Wf(s)
  {
    k in s.resources && ByteLen(k) == TopicIdLen && s.nodes[s.resources[k]].title == title
  }

  /** Every key the scans may answer with. */
  ghost function Matches(s: Sheet, title: string): set<TopicId>
    requires Wf(s)
  {
    set k | k in s.resources && Hit(s, k, title)
  }

  /** CId: the centre key for an empty title; otherwise some content
      identifier whose topic carries the title, or the last key when there
      is none (always the last key from a receiver without an index). */
  method CId(s: Sheet, st: Ref, title: string) returns (id: TopicId)
    requires Wf(s) && st in s.nodes
    ensures title == "" ==> id == CentKey
    ensures title != "" && !s.nodes[st].indexed ==> id == LastKey
    ensures title != "" && s.nodes[st].indexed ==>
              (id == LastKey <==> Matches(s, title) == {})
    ensures title != "" && id != LastKey ==> id in Matches(s, title)
  {
    if title == "" {
      return CentKey;
    }
    if !s.nodes[st].indexed {
      return LastKey;
    }
    var keys := s.resources.Keys;
    while keys != {}
      invariant keys <= s.resources.Keys
      invariant forall k | k in s.resources && k !in keys :: !Hit(s, k, title)
      decreases |keys|
    {
      var k :| k in keys;
      if ByteLen(k) == TopicIdLen && s.nodes[s.resources[k]].title == title {
        assert Hit(s, k, title);
        assert k != LastKey && k in Matches(s, title);
        return k;
      }
      keys := keys - {k};
    }
    return LastKey;
  }

  /** CIds: the centre key alone for an empty title; otherwise every content
      identifier whose topic carries the title, once each, in some order, or
      the last key alone when there is none. */
  method CIds(s: Sheet, st: Ref, title: string) returns (res: seq<TopicId>)
    requires Wf(s) && st in s.nodes
    ensures title == "" ==> res == [CentKey]
    ensures title != "" && (!s.nodes[st].indexed || Matches(s, title) == {}) ==> res == [LastKey]
    ensures title != "" && s.nodes[st].indexed && Matches(s, title) != {} ==>
              && (forall k :: k in res <==> k in Matches(s, title))
              && (forall i, j | 0 <= i < j < |res| :: res[i] != res[j])
  {
    if title == "" {
      return [CentKey];
    }
    res := [];
    if s.nodes[st].indexed {
      var keys := s.resources.Keys;
      while keys != {}
        invariant keys <= s.resources.Keys
        invariant forall k :: k in res <==> k in Matches(s, title) && k !in keys
        invariant forall i, j | 0 <= i < j < |res| :: res[i] != res[j]
        decreases |keys|
      {
        var k :| k in keys;
        if ByteLen(k) == TopicIdLen && s.nodes[s.resources[k]].title == title {
          assert Hit(s, k, title);
          res := res + [k];
        }
        keys := keys - {k};
      }
      if |res| > 0 {
        assert res[0] in Matches(s, title);
      }
    }
    if |res| == 0 {
      return [LastKey];
    }
  }

  /** OnTitle: navigate to a topic found by title. An empty title goes to the
      central topic; an unknown title stays on the last-edited topic. */
  method OnTitle(s: Sheet, st: Ref, title: string) returns (r: Step)
    requires Wf(s) && st in s.nodes
    ensures Wf(r.sheet) && r.topic in r.sheet.nodes && r.sheet.nodes == s.nodes
    ensures r.sheet.counter == s.counter && r.sheet.nextRef == s.nextRef
    ensures r.sheet.resources.Keys == s.resources.Keys
    ensures forall k | k in s.resources && k != LastKey :: r.sheet.resources[k] == s.resources[k]
    ensures !s.nodes[st].indexed ==> r == Step(s, st)
    ensures s.nodes[st].indexed && title == "" ==>
              && r.topic == Central(s)
              && r.sheet.resources == s.resources[LastKey := Central(s)]
    ensures s.nodes[st].indexed && title != "" && Matches(s, title) == {} ==>
              r == Step(s, s.resources[LastKey])
    ensures s.nodes[st].indexed && title != "" && Matches(s, title) != {} ==>
              && r.sheet.nodes[r.topic].title == title
              && (exists id | id in Matches(s, title) :: r.topic == s.resources[id])
              && r.sheet.resources == s.resources[LastKey := r.topic]
  {
    var cid := CId(s, st, title);
    r := On(s, st, [cid]);
    if s.nodes[st].indexed && title != "" && Matches(s, title) == {} {
      assert s.resources[LastKey := s.resources[LastKey]] == s.resources;
    }
  }

  /** No child ever carries a sentinel key as identifier, so removing by one
      is a no-op. */
  lemma SentinelRemovesNothing(s: Sheet, st: Ref, k: TopicId)
    requires Wf(s) && st in s.nodes && IsSentinel(k)
    ensures !Removes(s, st, k)
  {
    if k in s.resources && s.nodes[s.resources[k]].parent.Some? {
      var q := s.nodes[s.resources[k]].parent.value;
      assert LinksOk(s.nodes, s.resources[k]);
      assert LinksOk(s.nodes, q);
      var kids := Kids(s.nodes[q]);
      forall i | 0 <= i < |kids| ensures !SameId(s.nodes, k)(kids[i]) {
        assert LinksOk(s.nodes, kids[i]);
      }
    }
  }

  /** Remove: remove by the identifier CId finds for the title. An empty or
      unknown title removes nothing, because the centre and last keys never
      name a child. */
  method Remove(s: Sheet, st: Ref, title: string) returns (r: Step)
    requires Wf(s) && st in s.nodes
    ensures Wf(r.sheet)
    ensures title == "" || !s.nodes[st].indexed || Matches(s, title) == {} ==> r == Step(s, st)
    ensures s.nodes[st].indexed && title != "" && Matches(s, title) != {} ==>
              exists id | id in Matches(s, title) :: r == RemoveByID(s, st, id)
  {
    var cid := CId(s, st, title);
    if IsSentinel(cid) {
      SentinelRemovesNothing(s, st, cid);
    }
    r := RemoveByID(s, st, cid);
  }

  /** The central topic is indexed only under the centre and last keys, not
      under its own identifier, so on a new sheet no title matches: CId of
      the central title answers the last key, not the centre key. */
  lemma NewSheetMatchesNothing(sheetTitle: string, centralTopicTitle: string,
                               structureClass: seq<StructureClass>,
                               sheetId: TopicId, centralId: TopicId, title: string)
    requires |sheetId| == TopicIdLen && |centralId| == TopicIdLen && sheetId != centralId
    ensures Matches(NewSheet(sheetTitle, centralTopicTitle, structureClass, sheetId, centralId).sheet, title) == {}
  {
    var s := NewSheet(sheetTitle, centralTopicTitle, structureClass, sheetId, centralId).sheet;
    forall k | k in s.resources ensures ByteLen(k) != TopicIdLen {
      assert k in {RootKey, CentKey, LastKey, IncrKey};
    }
  }
}
