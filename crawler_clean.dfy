/** crawler/clean.py: the `Cleaner` object. Its policy is fixed at construction;
    `load` grows the set of raw dialogs and `clean` grows the set of cleaned ones.
    `html.unescape` is a parameter: its entity table is not part of this model. */
module CrawlerClean {
  import opened Options
  import opened SeqUtil
  import opened Whitespace
  import opened Mentions
  import opened Script
  import opened Repetition

  /** The four constructor arguments. */
  datatype Policy = Policy(minLength: int, maxRepeat: nat, removeNonJa: bool, includeAsciiInJa: bool)

  /** The defaults of `Cleaner.__init__`. */
  const DefaultPolicy := Policy(4, 4, false, false)

  /** `_clean_text`: mention removal, whitespace collapse, unescape, and with
      `remove_non_ja` the strip of every character outside the allowed set. */
  function CleanText(p: Policy, unescape: string -> string, text: string): (r: string)
    ensures p.removeNonJa ==> forall i :: 0 <= i < |r| ==> IsAllowed(r[i], p.includeAsciiInJa)
  {
    var t := unescape(Collapse(RemoveMentions(text)));
    if p.removeNonJa then RemoveDisallowed(t, p.includeAsciiInJa) else t
  }

  /** The strip only deletes: the result is the unescaped text with exactly its
      disallowed characters removed, so every allowed occurrence is kept in order. */
  lemma CleanTextStripOnlyDeletes(p: Policy, unescape: string -> string, text: string)
    requires p.removeNonJa
    ensures var t := unescape(Collapse(RemoveMentions(text)));
            && CleanText(p, unescape, text) == Filter(AllowedIn(p.includeAsciiInJa), t)
            && IsSubsequence(CleanText(p, unescape, text), t)
  {
    RemoveDisallowedIsFilter(unescape(Collapse(RemoveMentions(text))), p.includeAsciiInJa);
  }

  /** `_filter_text`: long enough, no flooding run, and (unless non-Japanese
      characters were already stripped) nothing outside the allowed set. */
  function FilterText(p: Policy, text: string): (r: bool)
    ensures r <==> && |text| >= p.minLength
                   && !HasRun(text, p.maxRepeat)
                   && (!p.removeNonJa ==> forall i :: 0 <= i < |text| ==> IsAllowed(text[i], p.includeAsciiInJa))
  {
    if |text| < p.minLength then false
    else if HasRepeat(text, p.maxRepeat) then false
    else if !p.removeNonJa && HasDisallowed(text, p.includeAsciiInJa) then false
    else true
  }

  /** Every utterance of the dialog passes the filter once cleaned. */
  predicate AllPass(p: Policy, unescape: string -> string, dialog: seq<string>) {
    forall i :: 0 <= i < |dialog| ==> FilterText(p, CleanText(p, unescape, dialog[i]))
  }

  /** The cleaned tuple: every utterance cleaned, in place. */
  function Cleaned(p: Policy, unescape: string -> string, dialog: seq<string>): (r: seq<string>)
    ensures |r| == |dialog| && forall i :: 0 <= i < |dialog| ==> r[i] == CleanText(p, unescape, dialog[i])
  {
    seq(|dialog|, i requires 0 <= i < |dialog| => CleanText(p, unescape, dialog[i]))
  }

  /** A dialog is kept when it is non-empty (the outer loop over its utterances runs
      at least once) and every utterance passes. */
  predicate Survives(p: Policy, unescape: string -> string, dialog: seq<string>) {
    dialog != [] && AllPass(p, unescape, dialog)
  }

  /** What one raw dialog contributes: its cleaned form when it survives. */
  function Outcome(p: Policy, unescape: string -> string, dialog: seq<string>): Option<seq<string>> {
    if Survives(p, unescape, dialog) then Some(Cleaned(p, unescape, dialog)) else None
  }

  /** The cleaned forms of the surviving dialogs of `ds`. */
  function Survivors(p: Policy, unescape: string -> string, ds: set<seq<string>>): set<seq<string>> {
    SomeValues(d => Outcome(p, unescape, d), ds)
  }

  lemma SurvivorsAdd(p: Policy, unescape: string -> string, ds: set<seq<string>>, d: seq<string>)
    ensures Survivors(p, unescape, ds + {d})
         == Survivors(p, unescape, ds) + (if Survives(p, unescape, d) then {Cleaned(p, unescape, d)} else {})
  {
    SomeValuesAdd(d => Outcome(p, unescape, d), ds, d);
  }

  lemma SurvivorsStep(base: set<seq<string>>, p: Policy, unescape: string -> string, done: set<seq<string>>, d: seq<string>)
    ensures base + Survivors(p, unescape, done)
              + (if Survives(p, unescape, d) then {Cleaned(p, unescape, d)} else {})
         == base + Survivors(p, unescape, done + {d})
  {
    SurvivorsAdd(p, unescape, done, d);
  }

  /** What a kept dialog is: the cleaned form of a raw dialog of the same length,
      utterance by utterance, non-empty, and every utterance passes the filter and
      holds only allowed characters (stripped, or checked by the filter). */
  lemma SurvivorMember(p: Policy, unescape: string -> string, ds: set<seq<string>>, c: seq<string>)
    requires c in Survivors(p, unescape, ds)
    ensures c != []
    ensures exists d :: d in ds && |c| == |d|
                        && forall i :: 0 <= i < |d| ==> c[i] == CleanText(p, unescape, d[i])
    ensures forall i :: 0 <= i < |c| ==> FilterText(p, c[i])
    ensures forall i, j :: 0 <= i < |c| && 0 <= j < |c[i]| ==> IsAllowed(c[i][j], p.includeAsciiInJa)
  {
    var d :| d in ds && Outcome(p, unescape, d).Some? && c == Outcome(p, unescape, d).value;
    forall i | 0 <= i < |c| ensures FilterText(p, c[i]) {
      assert c[i] == CleanText(p, unescape, d[i]);
    }
  }

  /** Each raw dialog yields at most one kept dialog. */
  lemma {:induction false} SurvivorsSize(p: Policy, unescape: string -> string, ds: set<seq<string>>)
    ensures |Survivors(p, unescape, ds)| <= |ds|
    decreases |ds|
  {
    if ds != {} {
      var d := Member(ds);
      SurvivorsSize(p, unescape, ds - {d});
      SurvivorsAdd(p, unescape, ds - {d}, d);
      assert ds - {d} + {d} == ds;
    }
  }

  /** The inner `for ... else` over one dialog: stops at the first utterance whose
      cleaned form fails; otherwise yields the cleaned tuple. */
  method CleanDialog(p: Policy, unescape: string -> string, dialog: seq<string>)
    returns (passed: bool, cleanedDialog: seq<string>)
    ensures passed <==> AllPass(p, unescape, dialog)
    ensures passed ==> cleanedDialog == Cleaned(p, unescape, dialog)
  {
    cleanedDialog := [];
    var i := 0;
    while i < |dialog|
      invariant i <= |dialog| && PassedPrefix(p, unescape, dialog, cleanedDialog)
      invariant |cleanedDialog| == i
    {
      var cleanedText := CleanText(p, unescape, dialog[i]);
      if !FilterText(p, cleanedText) {
        return false, cleanedDialog;
      }
      PassedOneMore(p, unescape, dialog, cleanedDialog);
      cleanedDialog := cleanedDialog + [cleanedText];
      i := i + 1;
    }
    PassedAll(p, unescape, dialog, cleanedDialog);
    passed := true;
  }

  /** The loop invariant of the inner loop: the first utterances, cleaned, are
      `cleaned`, and each of them passes. */
  predicate PassedPrefix(p: Policy, unescape: string -> string, dialog: seq<string>, cleaned: seq<string>) {
    && |cleaned| <= |dialog|
    && (forall j :: 0 <= j < |cleaned| ==> cleaned[j] == CleanText(p, unescape, dialog[j]))
    && (forall j :: 0 <= j < |cleaned| ==> FilterText(p, cleaned[j]))
  }

  lemma PassedOneMore(p: Policy, unescape: string -> string, dialog: seq<string>, cleaned: seq<string>)
    requires PassedPrefix(p, unescape, dialog, cleaned) && |cleaned| < |dialog|
    requires FilterText(p, CleanText(p, unescape, dialog[|cleaned|]))
    ensures PassedPrefix(p, unescape, dialog, cleaned + [CleanText(p, unescape, dialog[|cleaned|])])
  {
    var t := CleanText(p, unescape, dialog[|cleaned|]);
    var more := cleaned + [t];
    forall j | 0 <= j < |more|
      ensures more[j] == CleanText(p, unescape, dialog[j]) && FilterText(p, more[j])
    {
      if j < |cleaned| {
        assert more[j] == cleaned[j];
      } else {
        assert more[j] == t;
      }
    }
  }

  lemma PassedAll(p: Policy, unescape: string -> string, dialog: seq<string>, cleaned: seq<string>)
    requires PassedPrefix(p, unescape, dialog, cleaned) && |cleaned| == |dialog|
    ensures AllPass(p, unescape, dialog) && cleaned == Cleaned(p, unescape, dialog)
  {
  }

  /** A stand-in for `html.unescape` on one input: `&nbsp;` decodes to U+00A0. */
  function NbspOnly(s: string): string {
    if s == "a&nbsp;b" then "a\U{00A0}b" else s
  }

  /** Unescaping after the collapse can bring white space back: U+00A0, which the
      collapse turns into a plain space, is produced only afterwards. */
  lemma UnescapeAfterCollapse()
    ensures !IsCollapsed(CleanText(DefaultPolicy, NbspOnly, "a&nbsp;b"))
  {
    var s := "a&nbsp;b";
    assert forall i :: 0 <= i < |s| ==> !IsSpace(s[i]);
    WordKept(s);
    var r := CleanText(DefaultPolicy, NbspOnly, "a&nbsp;b");
    assert r == NbspOnly("a&nbsp;b");
    assert r == "a\U{00A0}b";
    assert IsSpace(r[1]) && r[1] != ' ';
  }

  /** A word without `@` passes the first two cleaning steps unchanged. */
  lemma WordKept(s: string)
    requires '@' !in s && IsWord(s)
    ensures Collapse(RemoveMentions(s)) == s
  {
    NoAtUnchanged(s);
    CollapseWord(s);
  }

  /** The loop invariant of `clean`: the raw dialogs still to handle and those
      handled partition the raw set, and the cleaned set has grown by the survivors
      of those handled. */
  ghost predicate Sweeping(p: Policy, unescape: string -> string, all: set<seq<string>>,
                           remaining: set<seq<string>>, done: set<seq<string>>,
                           base: set<seq<string>>, current: set<seq<string>>) {
    && remaining + done == all && remaining !! done
    && current == base + Survivors(p, unescape, done)
  }

  /** Handling one more raw dialog keeps the invariant. */
  lemma SweepOne(p: Policy, unescape: string -> string, all: set<seq<string>>,
                 remaining: set<seq<string>>, done: set<seq<string>>,
                 base: set<seq<string>>, current: set<seq<string>>, d: seq<string>)
    requires Sweeping(p, unescape, all, remaining, done, base, current) && d in remaining
    ensures Sweeping(p, unescape, all, remaining - {d}, done + {d}, base,
                     current + (if Survives(p, unescape, d) then {Cleaned(p, unescape, d)} else {}))
  {
    assert (remaining - {d}) + (done + {d}) == remaining + done;
    SurvivorsStep(base, p, unescape, done, d);
  }

  class Cleaner {
    const minLength: int
    const maxRepeat: nat
    const removeNonJa: bool
    const includeAsciiInJa: bool
    /** `_dialogs` and `_cleaned_dialogs`. */
    var dialogs: set<seq<string>>
    var cleanedDialogs: set<seq<string>>

    function Settings(): Policy {
      Policy(minLength, maxRepeat, removeNonJa, includeAsciiInJa)
    }

    /** `__init__`: the policy is stored and both dialog sets start empty. The
        non-Japanese pattern is `IsAllowed` with `includeAsciiInJa`. */
    constructor (minLength: int, maxRepeat: nat, removeNonJa: bool, includeAsciiInJa: bool)
      ensures Settings() == Policy(minLength, maxRepeat, removeNonJa, includeAsciiInJa)
      ensures dialogs == {} && cleanedDialogs == {}
    {
      this.minLength := minLength;
      this.maxRepeat := maxRepeat;
      this.removeNonJa := removeNonJa;
      this.includeAsciiInJa := includeAsciiInJa;
      dialogs, cleanedDialogs := {}, {};
    }

    /** The set-add of `load` over the rows read, in order. */
    method Load(rows: seq<seq<string>>)
      modifies this
      ensures dialogs == old(dialogs) + Elements(rows)
      ensures cleanedDialogs == old(cleanedDialogs)
    {
      for i := 0 to |rows|
        invariant dialogs == old(dialogs) + Elements(rows[..i])
        invariant cleanedDialogs == old(cleanedDialogs)
      {
        assert Elements(rows[..i + 1]) == Elements(rows[..i]) + {rows[i]} by {
          assert rows[..i + 1] == rows[..i] + [rows[i]];
          ElementsAppend(rows[..i], [rows[i]]);
        }
        dialogs := dialogs + {rows[i]};
      }
      assert rows[..|rows|] == rows;
    }

    /** The body of `clean` for one raw dialog: the outer loop over its utterances
        runs the inner `for ... else` each time and adds the same tuple each time, so
        the dialog is added once when it survives, and an empty dialog never. */
    method AddCleaned(policy: Policy, unescape: string -> string, dialog: seq<string>)
      modifies this
      ensures cleanedDialogs == old(cleanedDialogs)
                                + (if Survives(policy, unescape, dialog) then {Cleaned(policy, unescape, dialog)} else {})
      ensures dialogs == old(dialogs)
    {
      ghost var passes, cleaned := AllPass(policy, unescape, dialog), Cleaned(policy, unescape, dialog);
      for k := 0 to |dialog|
        invariant dialogs == old(dialogs)
        invariant cleanedDialogs == old(cleanedDialogs) + (if k > 0 && passes then {cleaned} else {})
      {
        var passed, cleanedDialog := CleanDialog(policy, unescape, dialog);
        if passed {
          cleanedDialogs := cleanedDialogs + {cleanedDialog};
        }
      }
    }

    /** `clean`: every raw dialog is handled once; the result is the set of
        survivors, whatever the iteration order. */
    method Clean(unescape: string -> string)
      modifies this
      ensures cleanedDialogs == old(cleanedDialogs) + Survivors(Settings(), unescape, dialogs)
      ensures dialogs == old(dialogs)
    {
      var policy := Settings();
      var remaining := dialogs;
      ghost var done: set<seq<string>> := {};
      while remaining != {}
        invariant dialogs == old(dialogs)
        invariant Sweeping(policy, unescape, dialogs, remaining, done, old(cleanedDialogs), cleanedDialogs)
        decreases |remaining|
      {
        // A member of `remaining`, so that the `:|` below has one to pick.
        ghost var member := Member(remaining);
        var dialog :| dialog in remaining;
        SweepOne(policy, unescape, dialogs, remaining, done, old(cleanedDialogs), cleanedDialogs, dialog);
        AddCleaned(policy, unescape, dialog);
        remaining := remaining - {dialog};
        done := done + {dialog};
      }
    }
  }
}
