/** What both crawler scripts share: the status prefilter, the dialog validator,
    the three-map status store with its insertion step, the leaf set, and the
    leaf-to-root walk. */
module ReplyChains {
  import opened Options
  import opened SeqUtil
  import opened Whitespace

  /** Status and user identifiers (Python integers). */
  type Id = int

  /** The three entity lists the prefilter looks at; `hasMedia` is the presence of the
      `media` key. */
  datatype Entities = Entities(hashtags: seq<string>, urls: seq<string>, hasMedia: bool)

  /** `in_reply_to_status_id` with its `in_reply_to_user_id`. */
  datatype ReplyRef = ReplyRef(statusId: Id, userId: Id)

  /** An already-fetched status record. */
  datatype Status = Status(
    id: Id,
    authorId: Id,
    fullText: string,
    source: string,
    entities: Entities,
    inReplyTo: Option<ReplyRef>)

  /** The client names taken as typed by a person. */
  const ManualSources: seq<string> := ["Twitter for Android", "Twitter for iPhone", "Twitter Web App"]

  /** `filter_status`: keep posts from a manual client with no hashtag, no URL and no media. */
  function FilterStatus(s: Status): (r: bool)
    ensures r <==> && s.source in ManualSources
                   && s.entities.hashtags == []
                   && s.entities.urls == []
                   && !s.entities.hasMedia
  {
    if s.source !in ManualSources then false
    else if |s.entities.hashtags| > 0 then false
    else if |s.entities.urls| > 0 then false
    else if s.entities.hasMedia then false
    else true
  }

  /** `filter_dialog`: at least two utterances, exactly two speakers, and no speaker
      twice in a row. */
  predicate FilterDialog(fullTexts: seq<string>, userIds: seq<Id>) {
    if |fullTexts| < 2 then false
    else if |Elements(userIds)| != 2 then false
    else if exists i :: 0 <= i < |userIds| - 1 && userIds[i] == userIds[i + 1] then false
    else true
  }

  /** The speaker sequence strictly alternates between two different users. */
  predicate Alternates(userIds: seq<Id>) {
    && |userIds| >= 2
    && userIds[0] != userIds[1]
    && forall i :: 0 <= i < |userIds| ==> userIds[i] == userIds[i % 2]
  }

  lemma AlternatingUsers(userIds: seq<Id>)
    requires Alternates(userIds)
    ensures Elements(userIds) == {userIds[0], userIds[1]}
    ensures forall i :: 0 <= i < |userIds| - 1 ==> userIds[i] != userIds[i + 1]
  {
    forall i | 0 <= i < |userIds| - 1 ensures userIds[i] != userIds[i + 1] {
      assert userIds[i] == userIds[i % 2] && userIds[i + 1] == userIds[(i + 1) % 2];
    }
    forall x | x in Elements(userIds) ensures x == userIds[0] || x == userIds[1] {
      var i :| 0 <= i < |userIds| && userIds[i] == x;
      assert userIds[i] == userIds[i % 2];
    }
  }

  lemma {:induction false} TwoUsersNoRepeatAlternate(userIds: seq<Id>)
    requires |Elements(userIds)| == 2
    requires forall i :: 0 <= i < |userIds| - 1 ==> userIds[i] != userIds[i + 1]
    ensures Alternates(userIds)
  {
    ElementsCardinality(userIds);
    var a, b := userIds[0], userIds[1];
    assert a != b;
    forall x | x in Elements(userIds) ensures x == a || x == b {
      if x != a && x != b {
        SubsetCardinality({a, b, x}, Elements(userIds));
      }
    }
    var i := 0;
    while i < |userIds|
      invariant 0 <= i <= |userIds|
      invariant forall j :: 0 <= j < i ==> userIds[j] == userIds[j % 2]
    {
      if i >= 2 {
        assert userIds[i] in Elements(userIds);
        assert userIds[i - 1] == userIds[(i - 1) % 2];
      }
      i := i + 1;
    }
  }

  /** `filter_dialog` accepts exactly the two-party, strictly alternating dialogs of at
      least two utterances. */
  lemma FilterDialogMeansAlternation(fullTexts: seq<string>, userIds: seq<Id>)
    ensures FilterDialog(fullTexts, userIds) <==> |fullTexts| >= 2 && Alternates(userIds)
  {
    if |fullTexts| >= 2 && Alternates(userIds) {
      AlternatingUsers(userIds);
    }
    if FilterDialog(fullTexts, userIds) {
      TwoUsersNoRepeatAlternate(userIds);
    }
  }

  // ---------------------------------------------------------------------------
  // The status store: status id -> text, status id -> author, status id -> parent.

  datatype Store = Store(texts: map<Id, string>, users: map<Id, Id>, replies: map<Id, Id>)

  const EmptyStore := Store(map[], map[], map[])

  /** Texts and authors are stored together, every reply entry belongs to a stored
      status, and every stored text is whitespace-collapsed. */
  ghost predicate StoreInvariant(st: Store) {
    && st.texts.Keys == st.users.Keys
    && st.replies.Keys <= st.texts.Keys
    && forall id :: id in st.texts ==> IsCollapsed(st.texts[id])
  }

  /** One pass of the fetch loop body: a status that passes the prefilter overwrites
      its text and author; a reply also (over)writes its parent entry. A parent entry
      is never removed. */
  function Insert(st: Store, s: Status): Store {
    if !FilterStatus(s) then st
    else
      Store(
        st.texts[s.id := Collapse(s.fullText)],
        st.users[s.id := s.authorId],
        if s.inReplyTo.Some? then st.replies[s.id := s.inReplyTo.value.statusId] else st.replies)
  }

  /** Inserting a status keeps the store invariant. */
  lemma InsertKeepsInvariant(st: Store, s: Status)
    requires StoreInvariant(st)
    ensures StoreInvariant(Insert(st, s))
  {
    if FilterStatus(s) {
      var r := Insert(st, s);
      forall id | id in r.texts ensures IsCollapsed(r.texts[id]) {
        if id != s.id { assert r.texts[id] == st.texts[id]; }
      }
    }
  }

  /** The store after inserting a sequence of statuses in order. */
  function InsertAll(st: Store, ss: seq<Status>): (r: Store)
    decreases |ss|
  {
    if ss == [] then st else Insert(InsertAll(st, ss[..|ss| - 1]), ss[|ss| - 1])
  }

  /** The in-reply-to user ids collected from the accepted replies among `ss`. */
  function RepliedUsers(ss: seq<Status>): set<Id>
    decreases |ss|
  {
    if ss == [] then {}
    else
      var s := ss[|ss| - 1];
      RepliedUsers(ss[..|ss| - 1])
        + (if FilterStatus(s) && s.inReplyTo.Some? then {s.inReplyTo.value.userId} else {})
  }

  /** Any number of insertions keeps the store invariant. */
  lemma {:induction false} InsertAllKeepsInvariant(st: Store, ss: seq<Status>)
    requires StoreInvariant(st)
    ensures StoreInvariant(InsertAll(st, ss))
    decreases |ss|
  {
    if ss != [] {
      InsertAllKeepsInvariant(st, ss[..|ss| - 1]);
      InsertKeepsInvariant(InsertAll(st, ss[..|ss| - 1]), ss[|ss| - 1]);
    }
  }

  /** One more status of the fetched timelines: the store grows by one insertion
      and the collected user ids by that status's contribution. */
  lemma InsertAllStep(st: Store, ss: seq<Status>, i: nat)
    requires i < |ss|
    ensures InsertAll(st, ss[..i + 1]) == Insert(InsertAll(st, ss[..i]), ss[i])
    ensures RepliedUsers(ss[..i + 1]) == RepliedUsers(ss[..i])
              + (if FilterStatus(ss[i]) && ss[i].inReplyTo.Some? then {ss[i].inReplyTo.value.userId} else {})
  {
    assert ss[..i + 1][..i] == ss[..i];
  }

  /** What one accepted status leaves in the store. */
  lemma InsertStores(st: Store, s: Status)
    requires FilterStatus(s)
    ensures Insert(st, s).texts[s.id] == Collapse(s.fullText)
    ensures Insert(st, s).users[s.id] == s.authorId
    ensures s.inReplyTo.Some? ==> Insert(st, s).replies[s.id] == s.inReplyTo.value.statusId
    ensures s.inReplyTo.None? ==> Insert(st, s).replies == st.replies
    ensures Insert(st, s).texts.Keys == st.texts.Keys + {s.id}
    ensures Insert(st, s).users.Keys == st.users.Keys + {s.id}
    ensures s.inReplyTo.Some? ==> Insert(st, s).replies.Keys == st.replies.Keys + {s.id}
    ensures forall id :: id != s.id && id in st.texts ==> Insert(st, s).texts[id] == st.texts[id]
    ensures forall id :: id != s.id && id in st.users ==> Insert(st, s).users[id] == st.users[id]
    ensures forall id :: id != s.id && id in st.replies ==> Insert(st, s).replies[id] == st.replies[id]
  {
  }

  /** A status the prefilter rejects changes nothing. */
  lemma InsertRejected(st: Store, s: Status)
    requires !FilterStatus(s)
    ensures Insert(st, s) == st
  {
  }

  /** Re-inserting an id: text and author are those of the last write. */
  lemma LastWriteWins(st: Store, s1: Status, s2: Status)
    requires s1.id == s2.id && FilterStatus(s2)
    ensures Insert(Insert(st, s1), s2).texts[s2.id] == Collapse(s2.fullText)
    ensures Insert(Insert(st, s1), s2).users[s2.id] == s2.authorId
  {
  }

  /** ...but a parent entry written by an earlier reply survives a later non-reply
      write of the same id. */
  lemma StaleParentSurvives(st: Store, s1: Status, s2: Status)
    requires s1.id == s2.id && FilterStatus(s1) && FilterStatus(s2)
    requires s1.inReplyTo.Some? && s2.inReplyTo.None?
    ensures Insert(Insert(st, s1), s2).replies[s2.id] == s1.inReplyTo.value.statusId
  {
  }

  // ---------------------------------------------------------------------------
  // Leaves and the walk to the root.

  /** `set(values())` of the reply map: every status that something replies to. */
  function Parents(replies: map<Id, Id>): set<Id> {
    set k | k in replies :: replies[k]
  }

  /** `set(keys()) - set(values())` of the reply map: a leaf is a status with a parent
      entry that is no status's parent. */
  function Leaves(replies: map<Id, Id>): (r: set<Id>)
    ensures forall id :: id in r <==> id in replies && forall k :: k in replies ==> replies[k] != id
  {
    replies.Keys - Parents(replies)
  }

  /** `p` is a complete leaf-to-root path in the store: every id has a text, each id's
      recorded parent is the next one, and the last id has no parent. */
  ghost predicate IsRootChain(st: Store, p: seq<Id>) {
    && |p| >= 1
    && (forall i :: 0 <= i < |p| ==> p[i] in st.texts)
    && (forall i :: 0 <= i < |p| - 1 ==> p[i] in st.replies && st.replies[p[i]] == p[i + 1])
    && p[|p| - 1] !in st.replies
  }

  /** The walk from `id` with at most `fuel` steps: None when an id on the way has no
      text, or when the fuel runs out; otherwise the ids walked, leaf first. */
  function WalkUp(st: Store, id: Id, fuel: nat): (p: Option<seq<Id>>)
    ensures p.Some? ==> IsRootChain(st, p.value) && p.value[0] == id && |p.value| <= fuel
    decreases fuel
  {
    if fuel == 0 || id !in st.texts then None
    else if id !in st.replies then Some([id])
    else
      match WalkUp(st, st.replies[id], fuel - 1)
      case None => None
      case Some(q) =>
        assert forall i :: 1 <= i < |q| + 1 ==> ([id] + q)[i] == q[i - 1];
        Some([id] + q)
  }

  /** The walk with the step bound the model uses: one more than the number of
      reply entries. */
  function Chain(st: Store, leaf: Id): Option<seq<Id>> {
    WalkUp(st, leaf, |st.replies| + 1)
  }

  /** The walk finds every complete path whose length fits in the fuel. */
  lemma {:induction false} WalkUpFindsChain(st: Store, p: seq<Id>, fuel: nat)
    requires IsRootChain(st, p) && |p| <= fuel
    ensures WalkUp(st, p[0], fuel) == Some(p)
    decreases |p|
  {
    if |p| == 1 {
      assert [p[0]] == p;
    } else {
      var q := p[1..];
      assert IsRootChain(st, q) by {
        assert forall i :: 0 <= i < |q| ==> q[i] == p[i + 1];
      }
      WalkUpFindsChain(st, q, fuel - 1);
      assert p[0] in st.replies && st.replies[p[0]] == q[0];
      assert [p[0]] + q == p;
    }
  }

  lemma {:induction false} ChainShift(st: Store, p: seq<Id>, i: nat, j: nat, m: nat)
    requires IsRootChain(st, p)
    requires i < j && j + m < |p| && p[i] == p[j]
    ensures p[i + m] == p[j + m]
    decreases m
  {
    if m > 0 {
      ChainShift(st, p, i, j, m - 1);
    }
  }

  /** A complete path never repeats an id. */
  lemma RootChainDistinct(st: Store, p: seq<Id>)
    requires IsRootChain(st, p)
    ensures Distinct(p)
  {
    forall i, j | 0 <= i < j < |p| ensures p[i] != p[j] {
      if p[i] == p[j] {
        var m := |p| - 1 - j;
        ChainShift(st, p, i, j, m);
        assert false;
      }
    }
  }

  /** A complete path is at most one longer than the reply map is large. */
  lemma RootChainShort(st: Store, p: seq<Id>)
    requires IsRootChain(st, p)
    ensures |p| <= |st.replies| + 1
  {
    RootChainDistinct(st, p);
    var inner := p[..|p| - 1];
    assert Distinct(inner);
    DistinctCardinality(inner);
    assert Elements(inner) <= st.replies.Keys;
    SubsetCardinality(Elements(inner), st.replies.Keys);
  }

  /** The step bound never cuts a walk short: the walk succeeds exactly when a
      complete path from `leaf` exists, and then returns it. It fails only when an
      ancestor is missing or the parents form a cycle. */
  lemma ChainExact(st: Store, leaf: Id)
    ensures Chain(st, leaf).Some? ==> IsRootChain(st, Chain(st, leaf).value)
                                      && Chain(st, leaf).value[0] == leaf
    ensures forall p :: IsRootChain(st, p) && p[0] == leaf ==> Chain(st, leaf) == Some(p)
  {
    forall p | IsRootChain(st, p) && p[0] == leaf ensures Chain(st, leaf) == Some(p) {
      RootChainShort(st, p);
      WalkUpFindsChain(st, p, |st.replies| + 1);
    }
  }

  /** The `k`-th ancestor of `id` by parent entries, if every step has one. */
  function Ancestor(replies: map<Id, Id>, id: Id, k: nat): Option<Id>
    decreases k
  {
    if k == 0 then Some(id)
    else if id in replies then Ancestor(replies, replies[id], k - 1)
    else None
  }

  /** All or nothing: when some ancestor reached on the way up has no text, the walk
      yields nothing for this leaf (not a truncated path). */
  lemma {:induction false} MissingAncestorDiscards(st: Store, id: Id, k: nat, fuel: nat)
    requires Ancestor(st.replies, id, k).Some?
    requires Ancestor(st.replies, id, k).value !in st.texts
    ensures WalkUp(st, id, fuel) == None
    decreases k
  {
    if k > 0 && fuel > 0 && id in st.texts {
      MissingAncestorDiscards(st, st.replies[id], k - 1, fuel - 1);
    }
  }

  /** Parallel text and author lists of a path. */
  function TextsOf(st: Store, p: seq<Id>): (r: seq<string>)
    requires forall i :: 0 <= i < |p| ==> p[i] in st.texts
    ensures |r| == |p| && forall i :: 0 <= i < |p| ==> r[i] == st.texts[p[i]]
  {
    if p == [] then [] else [st.texts[p[0]]] + TextsOf(st, p[1..])
  }

  function UsersOf(st: Store, p: seq<Id>): (r: seq<Id>)
    requires forall i :: 0 <= i < |p| ==> p[i] in st.users
    ensures |r| == |p| && forall i :: 0 <= i < |p| ==> r[i] == st.users[p[i]]
  {
    if p == [] then [] else [st.users[p[0]]] + UsersOf(st, p[1..])
  }

  /** The dialog a leaf contributes: the walked texts reversed to root-first order,
      when the walk reaches a root and the walked authors pass `filter_dialog`. */
  function Candidate(st: Store, leaf: Id): Option<seq<string>>
    requires st.texts.Keys <= st.users.Keys
  {
    match Chain(st, leaf)
    case None => None
    case Some(p) =>
      if FilterDialog(TextsOf(st, p), UsersOf(st, p)) then Some(Reverse(TextsOf(st, p))) else None
  }

  /** What an emitted dialog is: the reversal of a complete path's texts, whose root
      text comes first and whose leaf text comes last, spoken alternately by two
      users. */
  lemma CandidateShape(st: Store, leaf: Id)
    requires st.texts.Keys <= st.users.Keys
    requires Candidate(st, leaf).Some?
    ensures var d := Candidate(st, leaf).value;
            exists p :: && IsRootChain(st, p) && p[0] == leaf
                        && d == Reverse(TextsOf(st, p))
                        && d[0] == st.texts[p[|p| - 1]]
                        && d[|d| - 1] == st.texts[leaf]
                        && |d| >= 2
                        && Alternates(UsersOf(st, p))
  {
    var p := Chain(st, leaf).value;
    var ts := TextsOf(st, p);
    var d := Reverse(ts);
    assert d == Candidate(st, leaf).value;
    FilterDialogMeansAlternation(ts, UsersOf(st, p));
    assert d[0] == ts[|p| - 1];
    assert d[|d| - 1] == ts[0];
  }

  /** A stored reply to a stored root by a different user is a two-turn dialog:
      root text, then reply text. */
  lemma TwoTurnCandidate(st: Store, leaf: Id, root: Id)
    requires st.texts.Keys <= st.users.Keys
    requires leaf in st.texts && root in st.texts
    requires leaf in st.replies && st.replies[leaf] == root && root !in st.replies
    requires st.users[leaf] != st.users[root]
    ensures Candidate(st, leaf) == Some([st.texts[root], st.texts[leaf]])
  {
    var p := [leaf, root];
    assert IsRootChain(st, p);
    ChainExact(st, leaf);
    var ts, us := TextsOf(st, p), UsersOf(st, p);
    assert ts == [st.texts[leaf], st.texts[root]];
    assert us == [st.users[leaf], st.users[root]];
    assert Alternates(us);
    FilterDialogMeansAlternation(ts, us);
    assert Reverse(ts) == [st.texts[root], st.texts[leaf]];
  }

  /** Every utterance of an emitted dialog is a stored, hence collapsed, text. */
  lemma CandidateCollapsed(st: Store, leaf: Id)
    requires StoreInvariant(st)
    requires Candidate(st, leaf).Some?
    ensures forall i :: 0 <= i < |Candidate(st, leaf).value| ==> IsCollapsed(Candidate(st, leaf).value[i])
  {
    var p := Chain(st, leaf).value;
    assert Candidate(st, leaf).value == Reverse(TextsOf(st, p));
    ReversedTextsCollapsed(st, p);
  }

  lemma ReversedTextsCollapsed(st: Store, p: seq<Id>)
    requires forall i :: 0 <= i < |p| ==> p[i] in st.texts
    requires forall id :: id in st.texts ==> IsCollapsed(st.texts[id])
    ensures forall i :: 0 <= i < |p| ==> IsCollapsed(Reverse(TextsOf(st, p))[i])
  {
    var ts := TextsOf(st, p);
    forall i | 0 <= i < |p| ensures IsCollapsed(Reverse(ts)[i]) {
      var j := |p| - 1 - i;
      var id := p[j];
      assert id in st.texts;
      var t := st.texts[id];
      assert IsCollapsed(t);
      assert Reverse(ts)[i] == ts[j] == t;
    }
  }

  /** `Some(walked + q)` when the rest of the walk gives `q`. */
  function Prepend(walked: seq<Id>, rest: Option<seq<Id>>): Option<seq<Id>> {
    match rest
    case None => None
    case Some(q) => Some(walked + q)
  }

  /** The `while True` walk of both scripts: from the leaf, append the current
      status's text and author; stop with nothing when the current id has no text,
      stop with the lists when it has no parent, otherwise move to the parent. The
      step bound ends the walk on a reply cycle. */
  method ClimbToRoot(st: Store, leaf: Id) returns (reachedRoot: bool, fullTexts: seq<string>, userIds: seq<Id>)
    requires st.texts.Keys <= st.users.Keys
    ensures reachedRoot <==> Chain(st, leaf).Some?
    ensures reachedRoot ==> && fullTexts == TextsOf(st, Chain(st, leaf).value)
                            && userIds == UsersOf(st, Chain(st, leaf).value)
  {
    var id := leaf;
    var steps: nat := |st.replies| + 1;
    fullTexts, userIds := [], [];
    ghost var walked: seq<Id> := [];
    PrependAssoc([], [], Chain(st, leaf));
    while steps > 0
      invariant Climbing(st, leaf, walked, id, steps, fullTexts, userIds)
      decreases steps
    {
      if id !in st.texts {
        // no root: this leaf gives nothing
        ClimbStops(st, leaf, walked, id, steps, fullTexts, userIds);
        return false, fullTexts, userIds;
      }
      ClimbStep(st, leaf, walked, id, steps, fullTexts, userIds);
      fullTexts := fullTexts + [st.texts[id]];
      userIds := userIds + [st.users[id]];
      walked := walked + [id];
      if id !in st.replies {
        // root
        return true, fullTexts, userIds;
      }
      id := st.replies[id];
      steps := steps - 1;
    }
    ClimbStops(st, leaf, walked, id, steps, fullTexts, userIds);
    reachedRoot := false;
  }

  /** The walk gives nothing once it meets an unstored id or runs out of steps. */
  lemma ClimbStops(st: Store, leaf: Id, walked: seq<Id>, id: Id, steps: nat,
                   fullTexts: seq<string>, userIds: seq<Id>)
    requires st.texts.Keys <= st.users.Keys
    requires Climbing(st, leaf, walked, id, steps, fullTexts, userIds)
    requires steps == 0 || id !in st.texts
    ensures Chain(st, leaf).None?
  {
    assert WalkUp(st, id, steps).None?;
  }

  /** The loop invariant of the walk: the path walked so far, followed by the walk
      from the current id with the steps left, is the walk from the leaf; the lists
      hold the walked texts and authors. */
  ghost predicate Climbing(st: Store, leaf: Id, walked: seq<Id>, id: Id, steps: nat,
                           fullTexts: seq<string>, userIds: seq<Id>)
    requires st.texts.Keys <= st.users.Keys
  {
    && Chain(st, leaf) == Prepend(walked, WalkUp(st, id, steps))
    && (forall i :: 0 <= i < |walked| ==> walked[i] in st.texts)
    && fullTexts == TextsOf(st, walked) && userIds == UsersOf(st, walked)
  }

  /** One step of the walk keeps the invariant, or ends it at the root. */
  lemma ClimbStep(st: Store, leaf: Id, walked: seq<Id>, id: Id, steps: nat,
                  fullTexts: seq<string>, userIds: seq<Id>)
    requires st.texts.Keys <= st.users.Keys
    requires Climbing(st, leaf, walked, id, steps, fullTexts, userIds)
    requires steps > 0 && id in st.texts
    ensures id in st.replies ==>
      Climbing(st, leaf, walked + [id], st.replies[id], steps - 1,
               fullTexts + [st.texts[id]], userIds + [st.users[id]])
    ensures id !in st.replies ==>
      && Chain(st, leaf).Some?
      && fullTexts + [st.texts[id]] == TextsOf(st, Chain(st, leaf).value)
      && userIds + [st.users[id]] == UsersOf(st, Chain(st, leaf).value)
  {
    TextsOfSnoc(st, walked, id);
    var walked' := walked + [id];
    assert forall i :: 0 <= i < |walked'| ==> walked'[i] in st.texts by {
      forall i | 0 <= i < |walked'| ensures walked'[i] in st.texts {
        if i < |walked| { assert walked'[i] == walked[i]; }
      }
    }
    if id in st.replies {
      PrependAssoc(walked, [id], WalkUp(st, st.replies[id], steps - 1));
    }
  }

  /** The loop body of both builders for one leaf: the walk, then at the root the
      `filter_dialog` check and the reversal. */
  method LeafDialog(st: Store, leaf: Id) returns (d: Option<seq<string>>)
    requires st.texts.Keys <= st.users.Keys
    ensures d == Candidate(st, leaf)
  {
    var reachedRoot, fullTexts, userIds := ClimbToRoot(st, leaf);
    if reachedRoot && FilterDialog(fullTexts, userIds) {
      d := Some(Reverse(fullTexts));
    } else {
      d := None;
    }
  }

  lemma PrependAssoc(a: seq<Id>, b: seq<Id>, rest: Option<seq<Id>>)
    ensures Prepend(a, Prepend(b, rest)) == Prepend(a + b, rest)
    ensures Prepend([], rest) == rest
  {
    if rest.Some? {
      assert a + (b + rest.value) == (a + b) + rest.value;
      assert [] + rest.value == rest.value;
    }
  }

  lemma TextsOfSnoc(st: Store, p: seq<Id>, id: Id)
    requires forall i :: 0 <= i < |p| ==> p[i] in st.texts && p[i] in st.users
    requires id in st.texts && id in st.users
    ensures TextsOf(st, p + [id]) == TextsOf(st, p) + [st.texts[id]]
    ensures UsersOf(st, p + [id]) == UsersOf(st, p) + [st.users[id]]
  {
  }

  /** The example chain A <- B <- C with B never stored: leaf C yields nothing. */
  lemma BrokenChainExample(a: Id, b: Id, c: Id, ua: Id, uc: Id)
    requires a != b && b != c && a != c
    ensures var st := Store(map[a := "A", c := "C"], map[a := ua, c := uc], map[c := b]);
            Leaves(st.replies) == {c} && Chain(st, c) == None
  {
    var st := Store(map[a := "A", c := "C"], map[a := ua, c := uc], map[c := b]);
    assert Ancestor(st.replies, c, 1) == Some(b);
    MissingAncestorDiscards(st, c, 1, |st.replies| + 1);
  }
}
