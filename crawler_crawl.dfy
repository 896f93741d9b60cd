/** crawler/crawl.py: the `Crawler` object, whose three dictionaries are reset by
    `crawl`, filled by `_get_user_timeline`, and read by `_make_dialogs`, which
    collects the dialogs into a set. */
module CrawlerCrawl {
  import opened Options
  import opened SeqUtil
  import opened Whitespace
  import opened ReplyChains

  /** The dialogs the leaves in `ls` contribute: one per leaf whose walk reaches a
      root and whose walked authors pass `filter_dialog`. */
  function DialogSetOf(st: Store, ls: set<Id>): set<seq<string>>
    requires st.texts.Keys <= st.users.Keys
  {
    SomeValues(l => Candidate(st, l), ls)
  }

  /** What `_make_dialogs` returns for a store: the contributions of all leaves. */
  function DialogSet(st: Store): set<seq<string>>
    requires st.texts.Keys <= st.users.Keys
  {
    DialogSetOf(st, Leaves(st.replies))
  }

  /** One more leaf adds its dialog, if it has one, and nothing else. */
  lemma DialogSetOfAdd(st: Store, ls: set<Id>, x: Id)
    requires st.texts.Keys <= st.users.Keys
    ensures DialogSetOf(st, ls + {x})
         == DialogSetOf(st, ls) + (if Candidate(st, x).Some? then {Candidate(st, x).value} else {})
  {
    SomeValuesAdd(l => Candidate(st, l), ls, x);
  }

  /** The set holds at most one dialog per leaf. */
  lemma {:induction false} DialogSetOfSize(st: Store, ls: set<Id>)
    requires st.texts.Keys <= st.users.Keys
    ensures |DialogSetOf(st, ls)| <= |ls|
    decreases |ls|
  {
    if ls != {} {
      var x := Member(ls);
      DialogSetOfSize(st, ls - {x});
      DialogSetOfAdd(st, ls - {x}, x);
      assert ls - {x} + {x} == ls;
    }
  }

  /** What every collected dialog is: for some leaf, the reversal of the texts of its
      complete path, root text first and leaf text last, at least two utterances,
      two alternating authors, every utterance whitespace-collapsed. */
  lemma DialogSetMember(st: Store, d: seq<string>)
    requires StoreInvariant(st)
    requires d in DialogSet(st)
    ensures exists l, p :: && l in Leaves(st.replies)
                           && IsRootChain(st, p) && p[0] == l
                           && d == Reverse(TextsOf(st, p))
                           && d[0] == st.texts[p[|p| - 1]]
                           && d[|d| - 1] == st.texts[l]
                           && |d| >= 2
                           && Alternates(UsersOf(st, p))
    ensures forall i :: 0 <= i < |d| ==> IsCollapsed(d[i])
  {
    var l :| l in Leaves(st.replies) && Candidate(st, l).Some? && Candidate(st, l).value == d;
    CandidateShape(st, l);
    CandidateCollapsed(st, l);
  }

  /** A leaf with a missing ancestor adds nothing: removing it from the leaves
      leaves the result unchanged. */
  lemma MissingAncestorAddsNothing(st: Store, ls: set<Id>, leaf: Id, k: nat)
    requires st.texts.Keys <= st.users.Keys
    requires Ancestor(st.replies, leaf, k).Some? && Ancestor(st.replies, leaf, k).value !in st.texts
    ensures DialogSetOf(st, ls + {leaf}) == DialogSetOf(st, ls)
  {
    MissingAncestorDiscards(st, leaf, k, |st.replies| + 1);
    DialogSetOfAdd(st, ls, leaf);
  }

  /** The chain A <- B <- C with B never stored produces no dialog at all. */
  lemma BrokenChainNoDialog(a: Id, b: Id, c: Id, ua: Id, uc: Id)
    requires a != b && b != c && a != c
    ensures DialogSet(Store(map[a := "A", c := "C"], map[a := ua, c := uc], map[c := b])) == {}
  {
    var st := Store(map[a := "A", c := "C"], map[a := ua, c := uc], map[c := b]);
    BrokenChainExample(a, b, c, ua, uc);
    DialogSetOfAdd(st, {}, c);
    assert {} + {c} == Leaves(st.replies);
  }

  /** The loop invariant of `_make_dialogs`: the leaves still to visit and those
      visited partition the leaves, and the result holds the visited leaves'
      dialogs. */
  ghost predicate Visiting(st: Store, todo: set<Id>, done: set<Id>, result: set<seq<string>>)
    requires st.texts.Keys <= st.users.Keys
  {
    todo + done == Leaves(st.replies) && todo !! done && result == DialogSetOf(st, done)
  }

  /** Visiting one more leaf keeps the invariant. */
  lemma VisitLeaf(st: Store, todo: set<Id>, done: set<Id>, result: set<seq<string>>, x: Id)
    requires st.texts.Keys <= st.users.Keys
    requires Visiting(st, todo, done, result) && x in todo
    ensures Visiting(st, todo - {x}, done + {x},
                     if Candidate(st, x).Some? then result + {Candidate(st, x).value} else result)
  {
    assert (todo - {x}) + (done + {x}) == todo + done;
    assert (todo - {x}) !! (done + {x});
    DialogSetOfAdd(st, done, x);
  }

  class Crawler {
    /** `_status_id_to_full_text`, `_status_id_to_user_id`,
        `_status_id_to_in_reply_to_status_id` and `_dialogs`. */
    var statusIdToFullText: map<Id, string>
    var statusIdToUserId: map<Id, Id>
    var statusIdToInReplyToStatusId: map<Id, Id>
    var dialogs: set<seq<string>>

    /** The three dictionaries as a store value. */
    function Snapshot(): Store
      reads this
    {
      Store(statusIdToFullText, statusIdToUserId, statusIdToInReplyToStatusId)
    }

    ghost predicate Valid()
      reads this
    {
      StoreInvariant(Snapshot())
    }

    /** The dictionaries and the dialog set start empty (the API client is not
        part of this model). */
    constructor ()
      ensures Snapshot() == EmptyStore && dialogs == {}
      ensures Valid()
    {
      statusIdToFullText, statusIdToUserId, statusIdToInReplyToStatusId := map[], map[], map[];
      dialogs := {};
    }

    /** The reset at the start of `crawl`. */
    method Reset()
      modifies this
      ensures Snapshot() == EmptyStore && dialogs == {}
      ensures Valid()
    {
      statusIdToFullText, statusIdToUserId, statusIdToInReplyToStatusId := map[], map[], map[];
      dialogs := {};
    }

    /** The store updates of `_get_user_timeline` over the statuses of the fetched
        timelines, in order; returns the in-reply-to user ids of the accepted
        replies. */
    method GetUserTimeline(timeline: seq<Status>) returns (inReplyToUserIds: set<Id>)
      modifies this
      ensures Snapshot() == InsertAll(old(Snapshot()), timeline)
      ensures inReplyToUserIds == RepliedUsers(timeline)
      ensures dialogs == old(dialogs)
      ensures old(Valid()) ==> Valid()
    {
      inReplyToUserIds := {};
      for i := 0 to |timeline|
        invariant Snapshot() == InsertAll(old(Snapshot()), timeline[..i])
        invariant inReplyToUserIds == RepliedUsers(timeline[..i])
        invariant dialogs == old(dialogs)
      {
        var status := timeline[i];
        InsertAllStep(old(Snapshot()), timeline, i);
        if FilterStatus(status) {
          statusIdToFullText := statusIdToFullText[status.id := Collapse(status.fullText)];
          statusIdToUserId := statusIdToUserId[status.id := status.authorId];
          if status.inReplyTo.Some? {
            inReplyToUserIds := inReplyToUserIds + {status.inReplyTo.value.userId};
            statusIdToInReplyToStatusId := statusIdToInReplyToStatusId[status.id := status.inReplyTo.value.statusId];
          }
        }
      }
      assert timeline[..|timeline|] == timeline;
      if old(Valid()) {
        InsertAllKeepsInvariant(old(Snapshot()), timeline);
      }
    }

    /** `_make_dialogs`: walk every leaf to its root and keep the reversed texts of
        the walks that pass `filter_dialog`. */
    method MakeDialogs() returns (result: set<seq<string>>)
      requires statusIdToFullText.Keys <= statusIdToUserId.Keys
      ensures result == DialogSet(Snapshot())
      ensures |result| <= |Leaves(statusIdToInReplyToStatusId)|
    {
      result := {};
      var st := Snapshot();
      var statusIds := Leaves(statusIdToInReplyToStatusId);
      ghost var done: set<Id> := {};
      while statusIds != {}
        invariant Visiting(st, statusIds, done, result)
        decreases |statusIds|
      {
        // A member of `statusIds`, so that the `:|` below has one to pick.
        ghost var member := Member(statusIds);
        var statusId :| statusId in statusIds;
        var d := LeafDialog(st, statusId);
        VisitLeaf(st, statusIds, done, result, statusId);
        if d.Some? {
          result := result + {d.value};
        }
        statusIds := statusIds - {statusId};
        done := done + {statusId};
      }
      assert done == Leaves(st.replies);
      DialogSetOfSize(st, done);
    }

    /** `crawl` with the search and fetch results as inputs: reset, insert the first
        round of timelines, then the follow-up round, then build the dialogs. */
    method Crawl(timeline: seq<Status>, followUps: seq<Status>)
      modifies this
      ensures Snapshot() == InsertAll(InsertAll(EmptyStore, timeline), followUps)
      ensures Valid()
      ensures dialogs == DialogSet(Snapshot())
    {
      Reset();
      var inReplyToUserIds := GetUserTimeline(timeline);
      var _ := GetUserTimeline(followUps);
      dialogs := MakeDialogs();
    }
  }
}
