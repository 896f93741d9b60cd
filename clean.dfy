/** clean.py: the early cleaning script. Rows are cleaned utterance by utterance,
    kept when every utterance passes, deduplicated as tab-joined lines in a set, and
    the set is grouped by the number of tab-separated fields. `html.unescape` is a
    parameter: its entity table is not part of this model. */
module Clean {
  import opened SeqUtil
  import opened Strings
  import opened Whitespace
  import opened Mentions
  import opened Script
  import opened Repetition

  /** `min_length`. */
  const MinLength: nat := 4
  /** The count in the pattern `(.+)\1{4}`. */
  const MaxRepeat: nat := 4

  /** `clean_text`: unescape, mention removal, whitespace collapse. The result has
      the collapsed shape (so no tab and no line feed), and the words of the
      unescaped text without its mentions. */
  function CleanText(unescape: string -> string, text: string): (r: string)
    ensures IsCollapsed(r)
    ensures '\t' !in r && '\n' !in r
    ensures Split(r) == Split(RemoveMentions(unescape(text)))
  {
    var r := Collapse(RemoveMentions(unescape(text)));
    CollapseKeepsWords(RemoveMentions(unescape(text)));
    assert IsSpace('\t') && IsSpace('\n');
    r
  }

  /** `clean_row`: the list comprehension, position by position. */
  function CleanRow(unescape: string -> string, row: seq<string>): (r: seq<string>)
    ensures |r| == |row| && forall i :: 0 <= i < |row| ==> r[i] == CleanText(unescape, row[i])
  {
    seq(|row|, i requires 0 <= i < |row| => CleanText(unescape, row[i]))
  }

  /** `filter_text`: some Japanese character, nothing outside ASCII and the Japanese
      ranges, at least four characters, and no unit repeated five times in a row. */
  function FilterText(text: string): (r: bool)
    ensures r <==> && (exists i :: 0 <= i < |text| && IsJa(text[i]))
                   && (forall i :: 0 <= i < |text| ==> IsAllowed(text[i], true))
                   && |text| >= MinLength
                   && !HasRun(text, MaxRepeat)
  {
    if !HasJa(text) then false
    else if HasDisallowed(text, true) then false
    else if |text| < MinLength then false
    else if HasRepeat(text, MaxRepeat) then false
    else true
  }

  /** `filter_row`: `all(...)`, true for the empty row. */
  function FilterRow(row: seq<string>): (r: bool)
    ensures r <==> forall i :: 0 <= i < |row| ==> FilterText(row[i])
  {
    if row == [] then true
    else
      var r := FilterText(row[0]) && FilterRow(row[1..]);
      assert forall i :: 1 <= i < |row| ==> row[i] == row[1..][i - 1];
      r
  }

  /** The line a row adds: its cleaned utterances joined by tabs, when they all pass. */
  function Accepted(unescape: string -> string, row: seq<string>): set<string> {
    var cleaned := CleanRow(unescape, row);
    if FilterRow(cleaned) then {JoinWith("\t", cleaned)} else {}
  }

  /** The lines added by the rows, in order. */
  function AcceptedAll(unescape: string -> string, rows: seq<seq<string>>): set<string>
    decreases |rows|
  {
    if rows == [] then {}
    else AcceptedAll(unescape, rows[..|rows| - 1]) + Accepted(unescape, rows[|rows| - 1])
  }

  lemma AcceptedAllStep(unescape: string -> string, rows: seq<seq<string>>, i: nat)
    requires i < |rows|
    ensures AcceptedAll(unescape, rows[..i + 1]) == AcceptedAll(unescape, rows[..i]) + Accepted(unescape, rows[i])
  {
    assert rows[..i + 1][..i] == rows[..i];
  }

  /** At most one new line per row read. */
  lemma {:induction false} AcceptedAllSize(unescape: string -> string, rows: seq<seq<string>>)
    ensures |AcceptedAll(unescape, rows)| <= |rows|
    decreases |rows|
  {
    if rows != [] {
      AcceptedAllSize(unescape, rows[..|rows| - 1]);
    }
  }

  /** The in-memory part of `read_dialogs` over the rows read, in order: each row is
      cleaned, added to the caller's set as a tab-joined line when it passes, and
      counted either way. */
  method ReadDialogs(unescape: string -> string, rows: seq<seq<string>>, dialogs: set<string>)
    returns (dialogs': set<string>, nRead: nat)
    ensures nRead == |rows|
    ensures dialogs' == dialogs + AcceptedAll(unescape, rows)
    ensures |dialogs' - dialogs| <= nRead
  {
    dialogs', nRead := dialogs, 0;
    for i := 0 to |rows|
      invariant nRead == i
      invariant dialogs' == dialogs + AcceptedAll(unescape, rows[..i])
    {
      AcceptedAllStep(unescape, rows, i);
      var row := CleanRow(unescape, rows[i]);
      if FilterRow(row) {
        dialogs' := dialogs' + {JoinWith("\t", row)};
      }
      nRead := nRead + 1;
    }
    assert rows[..|rows|] == rows;
    AcceptedAllSize(unescape, rows);
    assert dialogs' - dialogs <= AcceptedAll(unescape, rows);
    SubsetCardinality(dialogs' - dialogs, AcceptedAll(unescape, rows));
  }

  /** `len(dialog.split('\t'))`. */
  function FieldCount(line: string): (n: nat)
    ensures n == Count('\t', line) + 1
  {
    SplitOnCount('\t', line);
    |SplitOn('\t', line)|
  }

  /** A line of a non-empty accepted row has one field per utterance: the cleaned
      utterances hold no tab, so splitting the line gives them back. */
  lemma FieldCountOfRow(unescape: string -> string, row: seq<string>)
    requires row != []
    ensures SplitOn('\t', JoinWith("\t", CleanRow(unescape, row))) == CleanRow(unescape, row)
    ensures FieldCount(JoinWith("\t", CleanRow(unescape, row))) == |row|
  {
    SplitJoinRoundTrip('\t', CleanRow(unescape, row));
  }

  /** The empty row passes, adds the empty line, and that line counts one field, the
      same as a one-utterance row. */
  lemma EmptyRowCountsAsOne(unescape: string -> string)
    ensures Accepted(unescape, []) == {""}
    ensures FieldCount("") == 1
  {
    assert CleanRow(unescape, []) == [];
  }

  lemma NoTabs(unescape: string -> string, row: seq<string>)
    ensures forall k :: 0 <= k < |row| ==> '\t' !in CleanRow(unescape, row)[k]
  {
  }

  /** Deduplicating lines is deduplicating rows: two non-empty rows give the same
      line exactly when their cleaned utterances agree. */
  lemma SameLineSameRow(unescape: string -> string, a: seq<string>, b: seq<string>)
    requires a != [] && b != []
    ensures JoinWith("\t", CleanRow(unescape, a)) == JoinWith("\t", CleanRow(unescape, b))
        <==> CleanRow(unescape, a) == CleanRow(unescape, b)
  {
    var ca, cb := CleanRow(unescape, a), CleanRow(unescape, b);
    NoTabs(unescape, a);
    NoTabs(unescape, b);
    if JoinWith("\t", ca) == JoinWith("\t", cb) {
      JoinInjective('\t', ca, cb);
    }
  }

  /** The lines of `ds` whose field count is one of `ns`. */
  function WithCountIn(ds: set<string>, ns: set<nat>): (r: set<string>)
    ensures r <= ds
  {
    set d | d in ds && FieldCount(d) in ns
  }

  /** `turn_to_dialog` groups exactly the lines of `ds`: each line sits in the group
      of its field count, and every group holds only lines of `ds` with that count. */
  ghost predicate IsGrouping(groups: map<nat, set<string>>, ds: set<string>) {
    && (forall d :: d in ds ==> FieldCount(d) in groups && d in groups[FieldCount(d)])
    && (forall n :: n in groups ==> forall d :: d in groups[n] ==> d in ds && FieldCount(d) == n)
  }

  /** A group is created only for a line that goes into it. */
  ghost predicate NoEmptyGroup(groups: map<nat, set<string>>) {
    forall n :: n in groups ==> groups[n] != {}
  }

  /** `groups` is exactly `turn_to_dialog` for the lines `ds`. */
  ghost predicate GroupedBy(groups: map<nat, set<string>>, ds: set<string>) {
    IsGrouping(groups, ds) && NoEmptyGroup(groups)
  }

  /** The in-memory part of `write_dialogs`: the grouping loop, then the count of
      lines written group by group. Every line lands in exactly one group, and
      `n_written` is the number of lines. */
  method WriteDialogs(dialogs: set<string>) returns (turnToDialog: map<nat, set<string>>, nWritten: nat)
    ensures GroupedBy(turnToDialog, dialogs)
    ensures nWritten == |dialogs|
  {
    turnToDialog := GroupByTurns(dialogs);
    nWritten := CountWritten(turnToDialog, dialogs);
  }

  /** The first loop of `write_dialogs`: each line into the group of its field count. */
  method GroupByTurns(dialogs: set<string>) returns (turnToDialog: map<nat, set<string>>)
    ensures GroupedBy(turnToDialog, dialogs)
  {
    turnToDialog := map[];
    var remaining := dialogs;
    ghost var done: set<string> := {};
    while remaining != {}
      invariant Partitioned(dialogs, remaining, done)
      invariant GroupedBy(turnToDialog, done)
      decreases |remaining|
    {
      // A member of `remaining`, so that the `:|` below has one to pick.
      ghost var member := Member(remaining);
      var dialog :| dialog in remaining;
      turnToDialog := AddToGroup(turnToDialog, done, dialog);
      PartitionedMove(dialogs, remaining, done, dialog);
      remaining := remaining - {dialog};
      done := done + {dialog};
    }
  }

  /** `remaining` and `done` split `all`. */
  ghost predicate Partitioned<T>(all: set<T>, remaining: set<T>, done: set<T>) {
    remaining + done == all && remaining !! done
  }

  /** Moving one element from `remaining` to `done` keeps the split. */
  lemma PartitionedMove<T>(all: set<T>, remaining: set<T>, done: set<T>, x: T)
    requires Partitioned(all, remaining, done) && x in remaining
    ensures Partitioned(all, remaining - {x}, done + {x})
  {
    assert (remaining - {x}) + (done + {x}) == remaining + done;
  }

  /** The body of the first loop: the group of the line's field count is created
      if missing, and the line added to it. */
  method AddToGroup(turnToDialog: map<nat, set<string>>, ghost done: set<string>, dialog: string)
    returns (turnToDialog': map<nat, set<string>>)
    requires GroupedBy(turnToDialog, done)
    ensures GroupedBy(turnToDialog', done + {dialog})
  {
    var nTurns := FieldCount(dialog);
    turnToDialog' := turnToDialog;
    if nTurns !in turnToDialog' {
      turnToDialog' := turnToDialog'[nTurns := {}];
    }
    turnToDialog' := turnToDialog'[nTurns := turnToDialog'[nTurns] + {dialog}];
    GroupingAdd(turnToDialog, turnToDialog', done, dialog);
  }

  /** The second loop of `write_dialogs`: the group sizes add up to the number of
      lines. */
  method CountWritten(turnToDialog: map<nat, set<string>>, ghost dialogs: set<string>) returns (nWritten: nat)
    requires IsGrouping(turnToDialog, dialogs)
    ensures nWritten == |dialogs|
  {
    nWritten := 0;
    var keys := turnToDialog.Keys;
    ghost var counted: set<nat> := {};
    while keys != {}
      invariant Partitioned(turnToDialog.Keys, keys, counted)
      invariant nWritten == |WithCountIn(dialogs, counted)|
      decreases |keys|
    {
      // A member of `keys`, so that the `:|` below has one to pick.
      ghost var member := Member(keys);
      var nTurns :| nTurns in keys;
      GroupIsCountClass(turnToDialog, dialogs, nTurns, counted);
      PartitionedMove(turnToDialog.Keys, keys, counted, nTurns);
      nWritten := nWritten + |turnToDialog[nTurns]|;
      keys := keys - {nTurns};
      counted := counted + {nTurns};
    }
    AllCountsCounted(turnToDialog, dialogs, counted);
  }

  /** Once every group is counted, every line is. */
  lemma AllCountsCounted(groups: map<nat, set<string>>, ds: set<string>, counted: set<nat>)
    requires IsGrouping(groups, ds) && groups.Keys <= counted
    ensures WithCountIn(ds, counted) == ds
  {
    forall d | d in ds ensures d in WithCountIn(ds, counted) {
      assert FieldCount(d) in groups;
    }
  }

  /** Putting one more line into the group of its field count keeps the grouping. */
  lemma GroupingAdd(groups: map<nat, set<string>>, groups': map<nat, set<string>>, ds: set<string>, d: string)
    requires GroupedBy(groups, ds)
    requires groups' == groups[FieldCount(d) := (if FieldCount(d) in groups then groups[FieldCount(d)] else {}) + {d}]
    ensures GroupedBy(groups', ds + {d})
  {
    var n := FieldCount(d);
    assert n in groups' && d in groups'[n];
    forall x | x in ds + {d} ensures FieldCount(x) in groups' && x in groups'[FieldCount(x)] {
      if x != d && FieldCount(x) != n {
        assert groups'[FieldCount(x)] == groups[FieldCount(x)];
      }
    }
    forall m | m in groups'
      ensures groups'[m] != {}
      ensures forall x :: x in groups'[m] ==> x in ds + {d} && FieldCount(x) == m
    {
      if m != n {
        assert groups'[m] == groups[m];
      }
    }
  }

  /** Adding one group to the count adds exactly its lines, none counted before. */
  lemma GroupIsCountClass(groups: map<nat, set<string>>, ds: set<string>, n: nat, counted: set<nat>)
    requires IsGrouping(groups, ds)
    requires n in groups && n !in counted
    ensures WithCountIn(ds, counted + {n}) == WithCountIn(ds, counted) + groups[n]
    ensures WithCountIn(ds, counted) * groups[n] == {}
    ensures |WithCountIn(ds, counted + {n})| == |WithCountIn(ds, counted)| + |groups[n]|
  {
    assert WithCountIn(ds, counted + {n}) == WithCountIn(ds, counted) + groups[n];
    assert WithCountIn(ds, counted) * groups[n] == {};
  }
}
