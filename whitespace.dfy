/** `' '.join(s.split())`: Python's whitespace collapse, used on every stored and cleaned text. */
module Whitespace {
  import opened Strings

  /** Python's `str.isspace` for one code point: the Unicode white-space characters
      (tab to carriage return, the four information separators, space, NEL, NBSP,
      OGHAM SPACE MARK, the typographic spaces U+2000-U+200A, the line and paragraph
      separators, NNBSP, MMSP and the ideographic space U+3000). */
  predicate IsSpace(c: char) {
    var n := c as int;
    || (0x09 <= n <= 0x0D) || (0x1C <= n <= 0x20) || n == 0x85 || n == 0xA0 || n == 0x1680
    || (0x2000 <= n <= 0x200A) || n == 0x2028 || n == 0x2029 || n == 0x202F || n == 0x205F
    || n == 0x3000
  }

  /** A non-empty run of non-white-space characters: one item of `str.split()`. */
  predicate IsWord(w: string) {
    w != [] && forall i :: 0 <= i < |w| ==> !IsSpace(w[i])
  }

  /** Leading white space removed. */
  function DropSpaces(s: string): (r: string)
    ensures |r| <= |s| && r == s[|s| - |r|..]
    ensures r == [] || !IsSpace(r[0])
    ensures forall i :: 0 <= i < |s| - |r| ==> IsSpace(s[i])
  {
    if s != [] && IsSpace(s[0]) then
      var r := DropSpaces(s[1..]);
      assert forall i :: 1 <= i < |s| ==> s[i] == s[1..][i - 1];
      r
    else s
  }

  /** Length of the longest white-space-free prefix. */
  function WordLength(s: string): (n: nat)
    ensures n <= |s|
    ensures forall i :: 0 <= i < n ==> !IsSpace(s[i])
    ensures n < |s| ==> IsSpace(s[n])
  {
    if s == [] || IsSpace(s[0]) then 0 else 1 + WordLength(s[1..])
  }

  /** Every item is a word. */
  predicate AllWords(ws: seq<string>) {
    forall k :: 0 <= k < |ws| ==> IsWord(ws[k])
  }

  lemma AllWordsCons(w: string, ws: seq<string>)
    requires IsWord(w) && AllWords(ws)
    ensures AllWords([w] + ws)
  {
    forall k | 0 <= k < |[w] + ws| ensures IsWord(([w] + ws)[k]) {
      if k > 0 { assert ([w] + ws)[k] == ws[k - 1]; }
    }
  }

  lemma AllWordsTail(ws: seq<string>)
    requires AllWords(ws) && ws != []
    ensures IsWord(ws[0]) && AllWords(ws[1..])
  {
    forall k | 0 <= k < |ws[1..]| ensures IsWord(ws[1..][k]) {
      assert ws[1..][k] == ws[k + 1];
    }
  }

  /** `s.split()` with no argument: the maximal white-space-free runs, in order. */
  function Split(s: string): (ws: seq<string>)
    ensures AllWords(ws)
    decreases |s|
  {
    var t := DropSpaces(s);
    if t == [] then []
    else
      var n := WordLength(t);
      FirstWord(t);
      var rest := Split(t[n..]);
      AllWordsCons(t[..n], rest);
      [t[..n]] + rest
  }

  /** The first item of `split()` on text that starts with a non-space is a word. */
  lemma FirstWord(t: string)
    requires t != [] && !IsSpace(t[0])
    ensures WordLength(t) >= 1 && IsWord(t[..WordLength(t)])
  {
    var n := WordLength(t);
    forall i | 0 <= i < n ensures !IsSpace(t[..n][i]) {
      assert t[..n][i] == t[i];
    }
  }

  /** A run of white space, possibly empty. */
  predicate IsGap(g: string) {
    forall i :: 0 <= i < |g| ==> IsSpace(g[i])
  }

  /** The white space around and between the items of `split()`: leading and trailing
      gaps may be empty, the inner ones may not. */
  predicate AreGaps(gaps: seq<string>) {
    && (forall k :: 0 <= k < |gaps| ==> IsGap(gaps[k]))
    && (forall k :: 0 < k < |gaps| - 1 ==> gaps[k] != [])
  }

  /** `gaps[0] + ws[0] + gaps[1] + ... + ws[n-1] + gaps[n]`. */
  function Weave(gaps: seq<string>, ws: seq<string>): string
    requires |gaps| == |ws| + 1
  {
    if ws == [] then gaps[0] else gaps[0] + ws[0] + Weave(gaps[1..], ws[1..])
  }

  /** `s` is the words `ws` with white-space gaps put back around and between them,
      so `ws` are the maximal white-space-free runs of `s`, in order. */
  predicate IsLayout(s: string, gaps: seq<string>, ws: seq<string>) {
    |gaps| == |ws| + 1 && AreGaps(gaps) && AllWords(ws) && Weave(gaps, ws) == s
  }

  /** `split()` finds the maximal runs: for any `ws`, it is `Split(s)` exactly when
      some white-space gaps woven between its items rebuild `s`. */
  lemma SplitIsLayout(s: string, ws: seq<string>)
    ensures ws == Split(s) <==> exists gaps :: IsLayout(s, gaps, ws)
  {
    if ws == Split(s) {
      var gaps := SplitLayout(s);
      assert IsLayout(s, gaps, ws);
    }
    if exists gaps :: IsLayout(s, gaps, ws) {
      var gaps :| IsLayout(s, gaps, ws);
      LayoutIsSplit(s, gaps, ws);
    }
  }

  /** The gaps of `split()`'s result: the first is the leading white space. */
  lemma {:induction false} SplitLayout(s: string) returns (gaps: seq<string>)
    ensures IsLayout(s, gaps, Split(s))
    ensures s != [] && IsSpace(s[0]) ==> gaps[0] != []
    decreases |s|
  {
    var t := DropSpaces(s);
    var lead := s[..|s| - |t|];
    LeadSplit(s);
    LeadIsGap(s);
    LeadNonEmpty(s);
    if t == [] {
      gaps := SplitLayoutBlank(s);
    } else {
      FirstWord(t);
      var n := WordLength(t);
      var w, rest := t[..n], t[n..];
      RestAfterWord(t);
      var g := SplitLayout(rest);
      gaps := [lead] + g;
      LayoutCons(lead, w, rest, g, Split(rest));
      SplitLayoutStep(s, lead, w, rest, gaps);
    }
  }

  /** The leading white space `split()` skips, followed by the rest, is the text. */
  lemma LeadSplit(s: string)
    ensures s == s[..|s| - |DropSpaces(s)|] + DropSpaces(s)
  {
  }

  lemma LeadIsGap(s: string)
    ensures IsGap(s[..|s| - |DropSpaces(s)|])
  {
    var lead := s[..|s| - |DropSpaces(s)|];
    forall i | 0 <= i < |lead| ensures IsSpace(lead[i]) {
      assert lead[i] == s[i];
    }
  }

  lemma LeadNonEmpty(s: string)
    ensures s != [] && IsSpace(s[0]) ==> s[..|s| - |DropSpaces(s)|] != []
  {
  }

  lemma SplitLayoutBlank(s: string) returns (gaps: seq<string>)
    requires DropSpaces(s) == [] && IsGap(s[..|s| - |DropSpaces(s)|])
    ensures IsLayout(s, gaps, Split(s))
    ensures s != [] && IsSpace(s[0]) ==> gaps[0] != []
  {
    gaps := [s];
    assert s[..|s|] == s;
  }

  /** The layout of the pieces is the layout of the whole. A rewriting step with no
      proof of its own: it keeps the obligation in `SplitLayout` small. */
  lemma SplitLayoutStep(s: string, lead: string, w: string, rest: string, gaps: seq<string>)
    requires s == lead + (w + rest) && Split(s) == [w] + Split(rest)
    requires IsLayout(lead + (w + rest), gaps, [w] + Split(rest))
    ensures IsLayout(s, gaps, Split(s))
  {
  }

  /** What follows the first word starts with white space, and `split()` continues
      there; when it is empty it splits into nothing. */
  lemma RestAfterWord(t: string)
    requires t != [] && !IsSpace(t[0])
    ensures t[WordLength(t)..] != [] ==> IsSpace(t[WordLength(t)..][0])
    ensures t[WordLength(t)..] == [] ==> Split(t[WordLength(t)..]) == []
    ensures t == t[..WordLength(t)] + t[WordLength(t)..]
  {
    var rest := t[WordLength(t)..];
    if rest != [] {
      assert rest[0] == t[WordLength(t)];
    }
  }

  /** One more word and the gap before it extend a layout. */
  lemma LayoutCons(lead: string, w: string, rest: string, g: seq<string>, ws: seq<string>)
    requires IsGap(lead) && IsWord(w) && IsLayout(rest, g, ws)
    requires |g| > 1 ==> g[0] != []
    ensures IsLayout(lead + (w + rest), [lead] + g, [w] + ws)
  {
    var gaps := [lead] + g;
    forall k | 0 <= k < |gaps| ensures IsGap(gaps[k]) {
      if k > 0 { assert gaps[k] == g[k - 1]; }
    }
    forall k | 0 < k < |gaps| - 1 ensures gaps[k] != [] {
      assert gaps[k] == g[k - 1];
    }
    AllWordsCons(w, ws);
    assert gaps[1..] == g && ([w] + ws)[1..] == ws;
    assert lead + w + rest == lead + (w + rest);
  }

  /** Any layout of `s` is the one `split()` finds. */
  lemma {:induction false} LayoutIsSplit(s: string, gaps: seq<string>, ws: seq<string>)
    requires IsLayout(s, gaps, ws)
    ensures ws == Split(s)
    decreases |ws|
  {
    if ws == [] {
      GapSplit(s);
    } else {
      var r := Weave(gaps[1..], ws[1..]);
      LayoutTail(s, gaps, ws);
      LayoutIsSplit(r, gaps[1..], ws[1..]);
      SplitGapWord(gaps[0], ws[0], r);
      ConsTail(ws, Split(r));
    }
  }

  /** Dropping the first word and gap of a layout leaves a layout of the rest, which
      starts with white space unless it is empty. */
  lemma LayoutTail(s: string, gaps: seq<string>, ws: seq<string>)
    requires IsLayout(s, gaps, ws) && ws != []
    ensures IsLayout(Weave(gaps[1..], ws[1..]), gaps[1..], ws[1..])
    ensures IsGap(gaps[0]) && IsWord(ws[0])
    ensures Weave(gaps[1..], ws[1..]) == [] || IsSpace(Weave(gaps[1..], ws[1..])[0])
    ensures s == gaps[0] + (ws[0] + Weave(gaps[1..], ws[1..]))
  {
    AllWordsTail(ws);
    var g := gaps[1..];
    forall k | 0 <= k < |g| ensures IsGap(g[k]) {
      assert g[k] == gaps[k + 1];
    }
    forall k | 0 < k < |g| - 1 ensures g[k] != [] {
      assert g[k] == gaps[k + 1];
    }
    if ws[1..] != [] {
      assert g[0] == gaps[1] && gaps[1] != [];
    }
  }

  /** Text that is all white space splits into nothing. */
  lemma GapSplit(s: string)
    requires IsGap(s)
    ensures Split(s) == []
  {
    var t := DropSpaces(s);
    if t != [] {
      assert t[0] == s[|s| - |t|];
    }
  }

  /** White space, a word, then white space or nothing: the word is the first item. */
  lemma SplitGapWord(g: string, w: string, r: string)
    requires IsGap(g) && IsWord(w) && (r == [] || IsSpace(r[0]))
    ensures Split(g + (w + r)) == [w] + Split(r)
  {
    DropGap(g, w + r);
    SplitWordThen(w, r);
    assert DropSpaces(w + r) == w + r;
  }

  lemma ConsTail(ws: seq<string>, tail: seq<string>)
    requires ws != [] && tail == ws[1..]
    ensures [ws[0]] + tail == ws
  {
  }

  lemma {:induction false} DropGap(g: string, x: string)
    requires IsGap(g) && x != [] && !IsSpace(x[0])
    ensures DropSpaces(g + x) == x
    decreases |g|
  {
    if g == [] {
      assert g + x == x;
    } else {
      assert IsSpace((g + x)[0]);
      assert (g + x)[1..] == g[1..] + x;
      assert IsGap(g[1..]) by {
        forall i | 0 <= i < |g[1..]| ensures IsSpace(g[1..][i]) {
          assert g[1..][i] == g[i + 1];
        }
      }
      DropGap(g[1..], x);
    }
  }

  /** The shape `' '.join(s.split())` always has: no white space at either end,
      no white space other than U+0020, and no two spaces in a row. */
  predicate IsCollapsed(s: string) {
    && (s != [] ==> s[0] != ' ' && s[|s| - 1] != ' ')
    && (forall i :: 0 <= i < |s| && IsSpace(s[i]) ==> s[i] == ' ')
    && (forall i :: 0 <= i < |s| - 1 && s[i] == ' ' ==> s[i + 1] != ' ')
  }

  lemma {:induction false} JoinWordsCollapsed(ws: seq<string>)
    requires AllWords(ws)
    ensures IsCollapsed(JoinWith(" ", ws))
  {
    if |ws| >= 2 {
      var w, rest := ws[0], JoinWith(" ", ws[1..]);
      AllWordsTail(ws);
      AllWordsTail(ws[1..]);
      JoinWordsCollapsed(ws[1..]);
      var s := w + " " + rest;
      assert |rest| >= 1 && rest[0] == ws[1][0];
      forall i | 0 <= i < |s| && IsSpace(s[i]) ensures s[i] == ' ' {
        if i > |w| { assert s[i] == rest[i - |w| - 1]; }
      }
      forall i | 0 <= i < |s| - 1 && s[i] == ' ' ensures s[i + 1] != ' ' {
        if i > |w| {
          assert s[i] == rest[i - |w| - 1] && s[i + 1] == rest[i - |w|];
        }
      }
    }
  }

  /** `' '.join(s.split())`. */
  function Collapse(s: string): (r: string)
    ensures IsCollapsed(r)
  {
    var ws := Split(s);
    JoinWordsCollapsed(ws);
    JoinWith(" ", ws)
  }

  lemma {:induction false} WordLengthOfWord(w: string, t: string)
    requires forall i :: 0 <= i < |w| ==> !IsSpace(w[i])
    requires t == [] || IsSpace(t[0])
    ensures WordLength(w + t) == |w|
    decreases |w|
  {
    if w == [] {
      assert w + t == t;
    } else {
      assert (w + t)[0] == w[0];
      assert (w + t)[1..] == w[1..] + t;
      WordLengthOfWord(w[1..], t);
    }
  }

  /** A word followed by white space (or nothing) is split off as the first item. */
  lemma SplitWordThen(w: string, t: string)
    requires IsWord(w)
    requires t == [] || IsSpace(t[0])
    ensures Split(w + t) == [w] + Split(t)
  {
    var s := w + t;
    assert s[0] == w[0];
    assert DropSpaces(s) == s;
    WordLengthOfWord(w, t);
    assert s[..|w|] == w && s[|w|..] == t;
  }

  lemma {:induction false} SplitAfterSpace(t: string)
    ensures Split(" " + t) == Split(t)
  {
    assert (" " + t)[1..] == t;
    assert DropSpaces(" " + t) == DropSpaces(t);
  }

  lemma JoinTwoOrMore(ws: seq<string>)
    requires |ws| >= 2
    ensures JoinWith(" ", ws) == ws[0] + (" " + JoinWith(" ", ws[1..]))
  {
  }

  /** Splitting a space-join of words gives the words back. */
  lemma {:induction false} SplitJoinWords(ws: seq<string>)
    requires AllWords(ws)
    ensures Split(JoinWith(" ", ws)) == ws
  {
    if |ws| == 0 {
      SplitJoinNone(ws);
    } else if |ws| == 1 {
      SplitJoinOne(ws);
    } else {
      AllWordsTail(ws);
      SplitJoinWords(ws[1..]);
      SplitJoinCons(ws);
    }
  }

  lemma SplitJoinNone(ws: seq<string>)
    requires ws == []
    ensures Split(JoinWith(" ", ws)) == ws
  {
    assert Split([]) == [];
  }

  lemma SplitJoinOne(ws: seq<string>)
    requires |ws| == 1 && IsWord(ws[0])
    ensures Split(JoinWith(" ", ws)) == ws
  {
    SplitWord(ws[0]);
    assert JoinWith(" ", ws) == ws[0];
    assert [ws[0]] == ws;
  }

  /** A single word splits into itself. */
  lemma SplitWord(w: string)
    requires IsWord(w)
    ensures Split(w) == [w]
  {
    WordLengthOfWord(w, []);
    assert w + [] == w;
    assert DropSpaces(w) == w;
    assert w[..|w|] == w && w[|w|..] == [];
    assert Split([]) == [];
  }

  lemma SplitJoinCons(ws: seq<string>)
    requires |ws| >= 2 && IsWord(ws[0])
    requires Split(JoinWith(" ", ws[1..])) == ws[1..]
    ensures Split(JoinWith(" ", ws)) == ws
  {
    JoinTwoOrMore(ws);
    SplitWordThenSpace(ws[0], JoinWith(" ", ws[1..]));
    assert [ws[0]] + ws[1..] == ws;
  }

  /** A word, a space and more text: the word is split off and the space dropped. */
  lemma SplitWordThenSpace(w: string, rest: string)
    requires IsWord(w)
    ensures Split(w + (" " + rest)) == [w] + Split(rest)
  {
    SplitWordThen(w, " " + rest);
    SplitAfterSpace(rest);
  }

  /** A single word collapses to itself. */
  lemma {:induction false} CollapseWord(w: string)
    requires IsWord(w)
    ensures Collapse(w) == w
  {
    SplitWord(w);
  }

  /** Collapsing keeps the word sequence: `s.split()` is unchanged. */
  lemma CollapseKeepsWords(s: string)
    ensures Split(Collapse(s)) == Split(s)
  {
    SplitJoinWords(Split(s));
  }

  /** Collapsing twice is collapsing once. */
  lemma CollapseIdempotent(s: string)
    ensures Collapse(Collapse(s)) == Collapse(s)
  {
    CollapseKeepsWords(s);
  }
}
