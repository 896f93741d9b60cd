/** crawl.py: the early script. The three dictionaries belong to the caller and are
    filled by `get_user_timeline`; `build_dialogs` collects the dialogs into a list,
    one entry per accepted leaf, duplicates included. */
module Crawl {
  import opened Options
  import opened SeqUtil
  import opened Whitespace
  import opened ReplyChains
  import opened CrawlerCrawl

  /** `get_user_timeline` over the statuses of the fetched timelines, in order: the
      caller's dictionaries come back updated, with the in-reply-to user ids of the
      accepted replies. */
  method GetUserTimeline(timeline: seq<Status>, textMap: map<Id, string>, userMap: map<Id, Id>, replyTree: map<Id, Id>)
    returns (inReplyToUserIds: set<Id>, textMap': map<Id, string>, userMap': map<Id, Id>, replyTree': map<Id, Id>)
    ensures Store(textMap', userMap', replyTree') == InsertAll(Store(textMap, userMap, replyTree), timeline)
    ensures inReplyToUserIds == RepliedUsers(timeline)
  {
    inReplyToUserIds, textMap', userMap', replyTree' := {}, textMap, userMap, replyTree;
    for i := 0 to |timeline|
      invariant Store(textMap', userMap', replyTree') == InsertAll(Store(textMap, userMap, replyTree), timeline[..i])
      invariant inReplyToUserIds == RepliedUsers(timeline[..i])
    {
      var status := timeline[i];
      InsertAllStep(Store(textMap, userMap, replyTree), timeline, i);
      if FilterStatus(status) {
        textMap' := textMap'[status.id := Collapse(status.fullText)];
        userMap' := userMap'[status.id := status.authorId];
        if status.inReplyTo.Some? {
          inReplyToUserIds := inReplyToUserIds + {status.inReplyTo.value.userId};
          replyTree' := replyTree'[status.id := status.inReplyTo.value.statusId];
        }
      }
    }
    assert timeline[..|timeline|] == timeline;
  }

  /** What one leaf appends to the list. */
  function EmitOne(st: Store, leaf: Id): (r: seq<seq<string>>)
    requires st.texts.Keys <= st.users.Keys
  {
    match Candidate(st, leaf)
    case None => []
    case Some(d) => [d]
  }

  /** The list built by visiting the leaves in `order`. */
  function EmitAll(st: Store, order: seq<Id>): seq<seq<string>>
    requires st.texts.Keys <= st.users.Keys
    decreases |order|
  {
    if order == [] then [] else EmitAll(st, order[..|order| - 1]) + EmitOne(st, order[|order| - 1])
  }

  lemma EmitOneElements(st: Store, leaf: Id)
    requires st.texts.Keys <= st.users.Keys
    ensures Elements(EmitOne(st, leaf))
         == if Candidate(st, leaf).Some? then {Candidate(st, leaf).value} else {}
  {
  }

  /** Each leaf appends at most one dialog. */
  lemma {:induction false} EmitAllLength(st: Store, order: seq<Id>)
    requires st.texts.Keys <= st.users.Keys
    ensures |EmitAll(st, order)| <= |order|
    decreases |order|
  {
    if order != [] {
      EmitAllLength(st, order[..|order| - 1]);
    }
  }

  /** The list holds exactly the dialogs of the set the refactored crawler builds
      from the same leaves: the two copies agree up to order and repetition. */
  lemma {:induction false} EmitAllElements(st: Store, order: seq<Id>)
    requires st.texts.Keys <= st.users.Keys
    ensures Elements(EmitAll(st, order)) == DialogSetOf(st, Elements(order))
    decreases |order|
  {
    if order != [] {
      var init, last := order[..|order| - 1], order[|order| - 1];
      var one := if Candidate(st, last).Some? then {Candidate(st, last).value} else {};
      EmitAllElements(st, init);
      DialogSetOfAdd(st, Elements(init), last);
      assert order == init + [last];
      ElementsAppend(init, [last]);
      assert Elements([last]) == {last};
      ElementsAppend(EmitAll(st, init), EmitOne(st, last));
      EmitOneElements(st, last);
      assert EmitAll(st, order) == EmitAll(st, init) + EmitOne(st, last);
      assert Elements(EmitAll(st, order)) == DialogSetOf(st, Elements(init)) + one;
    }
  }

  /** `build_dialogs`: every leaf, in some order, walked to its root; the reversed
      texts of the walks that pass `filter_dialog` are appended to the list. The
      ghost `order` is the set's iteration order. */
  method BuildDialogs(textMap: map<Id, string>, userMap: map<Id, Id>, replyTree: map<Id, Id>)
    returns (dialogs: seq<seq<string>>, ghost order: seq<Id>)
    requires textMap.Keys <= userMap.Keys
    ensures Distinct(order) && Elements(order) == Leaves(replyTree)
    ensures dialogs == EmitAll(Store(textMap, userMap, replyTree), order)
    ensures |dialogs| <= |Leaves(replyTree)|
    ensures Elements(dialogs) == DialogSet(Store(textMap, userMap, replyTree))
  {
    var st := Store(textMap, userMap, replyTree);
    dialogs, order := [], [];
    var statusIds := Leaves(replyTree);
    while statusIds != {}
      invariant Listing(st, statusIds, order, dialogs)
      decreases |statusIds|
    {
      // A member of `statusIds`, so that the `:|` below has one to pick.
      ghost var member := Member(statusIds);
      var statusId :| statusId in statusIds;
      var d := LeafDialog(st, statusId);
      ListLeaf(st, statusIds, order, dialogs, statusId);
      if d.Some? {
        dialogs := dialogs + [d.value];
      }
      statusIds := statusIds - {statusId};
      order := order + [statusId];
    }
    EmitAllLength(st, order);
    DistinctCardinality(order);
    EmitAllElements(st, order);
  }

  /** The loop invariant of `build_dialogs`: the leaves still to visit and the visit
      order so far partition the leaves, no leaf is visited twice, and the list is
      what the visits so far appended. */
  ghost predicate Listing(st: Store, todo: set<Id>, order: seq<Id>, dialogs: seq<seq<string>>)
    requires st.texts.Keys <= st.users.Keys
  {
    && todo !! Elements(order) && todo + Elements(order) == Leaves(st.replies)
    && Distinct(order)
    && dialogs == EmitAll(st, order)
  }

  /** Visiting one more leaf keeps the invariant. */
  lemma ListLeaf(st: Store, todo: set<Id>, order: seq<Id>, dialogs: seq<seq<string>>, x: Id)
    requires st.texts.Keys <= st.users.Keys
    requires Listing(st, todo, order, dialogs) && x in todo
    ensures Listing(st, todo - {x}, order + [x],
                    if Candidate(st, x).Some? then dialogs + [Candidate(st, x).value] else dialogs)
  {
    var order' := order + [x];
    ElementsAppend(order, [x]);
    assert Elements([x]) == {x};
    assert order'[..|order|] == order;
    assert x !in Elements(order);
    forall i, j | 0 <= i < j < |order'| ensures order'[i] != order'[j] {
      if j == |order| { assert order'[i] in Elements(order); }
    }
  }

  /** One round of the main loop without its I/O: fresh dictionaries, the first and
      the follow-up round of timelines, then the dialog list. */
  method CrawlOnce(timeline: seq<Status>, followUps: seq<Status>)
    returns (dialogs: seq<seq<string>>, ghost order: seq<Id>)
    ensures var st := InsertAll(InsertAll(EmptyStore, timeline), followUps);
            && StoreInvariant(st)
            && |dialogs| <= |Leaves(st.replies)|
            && Elements(dialogs) == DialogSet(st)
    ensures var st := InsertAll(InsertAll(EmptyStore, timeline), followUps);
            && Distinct(order) && Elements(order) == Leaves(st.replies)
            && dialogs == EmitAll(st, order)
  {
    var inReplyToUserIds, textMap, userMap, replyTree := GetUserTimeline(timeline, map[], map[], map[]);
    var _, textMap2, userMap2, replyTree2 := GetUserTimeline(followUps, textMap, userMap, replyTree);
    InsertAllKeepsInvariant(EmptyStore, timeline);
    InsertAllKeepsInvariant(InsertAll(EmptyStore, timeline), followUps);
    dialogs, order := BuildDialogs(textMap2, userMap2, replyTree2);
  }

  /** Root 1 ("A", by user 10) with two replies 2 and 3, both "B" by user 20. */
  const Siblings := Store(map[1 := "A", 2 := "B", 3 := "B"], map[1 := 10, 2 := 20, 3 := 20], map[2 := 1, 3 := 1])

  lemma SiblingCandidate(leaf: Id)
    requires leaf == 2 || leaf == 3
    ensures Candidate(Siblings, leaf) == Some(["A", "B"])
  {
    TwoTurnCandidate(Siblings, leaf, 1);
  }

  lemma SiblingLeaves()
    ensures Leaves(Siblings.replies) == {2, 3}
  {
    var r := Siblings.replies;
    assert forall k :: k in r ==> r[k] == 1;
    assert r[2] == 1;
    assert Parents(r) == {1};
  }

  lemma SiblingList()
    ensures EmitAll(Siblings, [2, 3]) == [["A", "B"], ["A", "B"]]
  {
    SiblingCandidate(2);
    SiblingCandidate(3);
    EmitTwo(Siblings, 2, 3);
  }

  lemma EmitTwo(st: Store, a: Id, b: Id)
    requires st.texts.Keys <= st.users.Keys
    ensures EmitAll(st, [a, b]) == EmitOne(st, a) + EmitOne(st, b)
  {
    assert [a, b][..1] == [a];
    assert [a][..0] == [];
    assert EmitAll(st, [a]) == EmitOne(st, a);
  }

  /** Two leaves answering the same root with the same text give the same dialog,
      and the list keeps both copies where the set keeps one. */
  lemma DuplicatesKept()
    ensures Leaves(Siblings.replies) == {2, 3}
    ensures EmitAll(Siblings, [2, 3]) == [["A", "B"], ["A", "B"]]
    ensures DialogSet(Siblings) == {["A", "B"]}
  {
    SiblingLeaves();
    SiblingList();
    EmitAllElements(Siblings, [2, 3]);
    assert Elements([2, 3]) == {2, 3};
    assert Elements([["A", "B"], ["A", "B"]]) == {["A", "B"]};
  }
}
