/** Python's `sep.join(words)` and `s.split(sep)` for a one-character separator. */
module Strings {

  /** `sep.join(ws)`. */
  function JoinWith(sep: string, ws: seq<string>): (r: string)
    ensures |ws| == 0 ==> r == []
    ensures |ws| >= 1 ==> |r| >= |ws[0]| && r[..|ws[0]|] == ws[0]
  {
    if |ws| == 0 then []
    else if |ws| == 1 then ws[0]
    else ws[0] + sep + JoinWith(sep, ws[1..])
  }

  /** `s.split(sep)`: the pieces between separators; always at least one piece. */
  function SplitOn(sep: char, s: string): (fields: seq<string>)
    ensures |fields| >= 1
  {
    if s == [] then [[]]
    else
      var rest := SplitOn(sep, s[1..]);
      if s[0] == sep then [[]] + rest else [[s[0]] + rest[0]] + rest[1..]
  }

  /** Number of occurrences of `c` in `s`. */
  function Count(c: char, s: string): nat {
    if s == [] then 0 else (if s[0] == c then 1 else 0) + Count(c, s[1..])
  }

  /** `s.split(sep)` yields one more field than there are separators. */
  lemma {:induction false} SplitOnCount(sep: char, s: string)
    ensures |SplitOn(sep, s)| == Count(sep, s) + 1
  {
    if s != [] {
      SplitOnCount(sep, s[1..]);
    }
  }

  lemma {:induction false} SplitOnWord(sep: char, w: string, t: string)
    requires sep !in w
    ensures SplitOn(sep, w + t) == [w + SplitOn(sep, t)[0]] + SplitOn(sep, t)[1..]
    decreases |w|
  {
    if w != [] {
      assert sep !in w[1..];
      SplitOnWord(sep, w[1..], t);
      SplitOnWordStep(sep, w, t);
    } else {
      SplitOnNoWord(sep, w, t);
    }
  }

  lemma SplitOnNoWord(sep: char, w: string, t: string)
    requires w == []
    ensures SplitOn(sep, w + t) == [w + SplitOn(sep, t)[0]] + SplitOn(sep, t)[1..]
  {
    var fs := SplitOn(sep, t);
    assert w + t == t;
    assert w + fs[0] == fs[0];
    assert [fs[0]] + fs[1..] == fs;
  }

  lemma SplitOnWordStep(sep: char, w: string, t: string)
    requires w != [] && w[0] != sep
    requires SplitOn(sep, w[1..] + t) == [w[1..] + SplitOn(sep, t)[0]] + SplitOn(sep, t)[1..]
    ensures SplitOn(sep, w + t) == [w + SplitOn(sep, t)[0]] + SplitOn(sep, t)[1..]
  {
    var u := w[1..] + t;
    HeadTailAppend(w, t);
    SplitOnCons(sep, w[0], u);
    FieldsCons(w, SplitOn(sep, t), SplitOn(sep, u));
  }

  /** Putting the head of `w` back in front of the first field. */
  lemma FieldsCons(w: string, fs: seq<string>, rest: seq<string>)
    requires w != [] && |fs| >= 1
    requires rest == [w[1..] + fs[0]] + fs[1..]
    ensures [[w[0]] + rest[0]] + rest[1..] == [w + fs[0]] + fs[1..]
  {
    assert rest[0] == w[1..] + fs[0];
    assert rest[1..] == fs[1..];
    HeadTailAppend(w, fs[0]);
  }

  lemma HeadTailAppend(w: string, v: string)
    requires w != []
    ensures [w[0]] + (w[1..] + v) == w + v
  {
    assert [w[0]] + w[1..] == w;
  }

  /** A character other than the separator joins the first field. */
  lemma SplitOnCons(sep: char, c: char, u: string)
    requires c != sep
    ensures SplitOn(sep, [c] + u) == [[c] + SplitOn(sep, u)[0]] + SplitOn(sep, u)[1..]
  {
    assert ([c] + u)[1..] == u;
  }

  /** Splitting a join recovers the pieces, when no piece contains the separator
      and there is at least one piece. */
  lemma {:induction false} SplitJoinRoundTrip(sep: char, ws: seq<string>)
    requires |ws| >= 1
    requires forall k :: 0 <= k < |ws| ==> sep !in ws[k]
    ensures SplitOn(sep, JoinWith([sep], ws)) == ws
  {
    if |ws| == 1 {
      SplitOnWord(sep, ws[0], []);
      assert ws[0] + [] == ws[0];
    } else {
      var rest := JoinWith([sep], ws[1..]);
      SplitJoinRoundTrip(sep, ws[1..]);
      assert SplitOn(sep, [sep] + rest) == [[]] + ws[1..] by {
        assert ([sep] + rest)[1..] == rest;
      }
      assert ws[0] + [sep] + rest == ws[0] + ([sep] + rest);
      SplitOnWord(sep, ws[0], [sep] + rest);
      assert ws[0] + [] == ws[0];
      assert [ws[0]] + ws[1..] == ws;
    }
  }

  /** Pieces without the separator: joining is injective on non-empty lists. */
  lemma JoinInjective(sep: char, a: seq<string>, b: seq<string>)
    requires |a| >= 1 && |b| >= 1
    requires forall k :: 0 <= k < |a| ==> sep !in a[k]
    requires forall k :: 0 <= k < |b| ==> sep !in b[k]
    requires JoinWith([sep], a) == JoinWith([sep], b)
    ensures a == b
  {
    SplitJoinRoundTrip(sep, a);
    SplitJoinRoundTrip(sep, b);
  }
}
