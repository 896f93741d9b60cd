/** Screen-name removal: `re.sub(r'@[A-Za-z0-9_]{1,15}', '', text)`. */
module Mentions {
  import opened SeqUtil

  /** Longest screen name the pattern takes after `@`. */
  const MaxHandleLength: nat := 15

  /** The character class `[A-Za-z0-9_]` (ASCII only, as written in the pattern). */
  predicate IsHandleChar(c: char) {
    ('A' <= c <= 'Z') || ('a' <= c <= 'z') || ('0' <= c <= '9') || c == '_'
  }

  /** Characters that mention removal can never delete. */
  predicate IsPlain(c: char) {
    c != '@' && !IsHandleChar(c)
  }

  /** How many handle characters the greedy `{1,15}` takes at the front of `s`
      when at most `budget` are allowed. */
  function HandleLength(s: string, budget: nat): (n: nat)
    ensures n <= |s| && n <= budget
    ensures forall i :: 0 <= i < n ==> IsHandleChar(s[i])
    ensures n < |s| && n < budget ==> !IsHandleChar(s[n])
  {
    if budget == 0 || s == [] || !IsHandleChar(s[0]) then 0
    else 1 + HandleLength(s[1..], budget - 1)
  }

  /** Scans left to right: at an `@` followed by at least one handle character the
      longest match (up to 15 characters) is deleted and scanning resumes after it;
      any other character is kept. */
  function RemoveMentions(s: string): (r: string)
    ensures IsSubsequence(r, s)
    decreases |s|
  {
    if s == [] then []
    else
      var n := HandleLength(s[1..], MaxHandleLength);
      if s[0] == '@' && n > 0 then
        var r := RemoveMentions(s[1 + n..]);
        SubsequenceUnderPrefix(r, s[..1 + n], s[1 + n..]);
        assert s[..1 + n] + s[1 + n..] == s;
        r
      else
        var r := RemoveMentions(s[1..]);
        assert ([s[0]] + r)[1..] == r;
        [s[0]] + r
  }

  /** Text without `@` is returned unchanged. */
  lemma {:induction false} NoAtUnchanged(s: string)
    requires '@' !in s
    ensures RemoveMentions(s) == s
  {
    if s != [] {
      assert '@' !in s[1..];
      NoAtUnchanged(s[1..]);
    }
  }

  lemma RemovedSpan(s: string, n: nat)
    requires s != [] && s[0] == '@'
    requires n == HandleLength(s[1..], MaxHandleLength)
    ensures 1 + n <= |s|
    ensures forall i :: 0 <= i < 1 + n ==> !IsPlain(s[i])
  {
    forall i | 0 < i < 1 + n ensures !IsPlain(s[i]) {
      assert s[i] == s[1..][i - 1];
    }
  }

  lemma PlainTextKeptAfterMention(s: string, n: nat)
    requires s != [] && s[0] == '@' && n > 0
    requires n == HandleLength(s[1..], MaxHandleLength)
    requires Filter(IsPlain, RemoveMentions(s[1 + n..])) == Filter(IsPlain, s[1 + n..])
    ensures Filter(IsPlain, RemoveMentions(s)) == Filter(IsPlain, s)
  {
    RemovedSpan(s, n);
    assert RemoveMentions(s) == RemoveMentions(s[1 + n..]);
    PlainTextAfterSpan(s, 1 + n);
  }

  /** Deleting a prefix with no plain character keeps the plain text. */
  lemma PlainTextAfterSpan(s: string, m: nat)
    requires m <= |s|
    requires forall i :: 0 <= i < m ==> !IsPlain(s[i])
    ensures Filter(IsPlain, s) == Filter(IsPlain, s[m..])
  {
    var cut, rest := s[..m], s[m..];
    assert cut + rest == s;
    forall i | 0 <= i < |cut| ensures !IsPlain(cut[i]) {
      assert cut[i] == s[i];
    }
    FilterNoneKept(IsPlain, cut);
    FilterAppend(IsPlain, cut, rest);
  }

  lemma PlainTextKeptAfterChar(s: string)
    requires s != []
    requires !(s[0] == '@' && HandleLength(s[1..], MaxHandleLength) > 0)
    requires Filter(IsPlain, RemoveMentions(s[1..])) == Filter(IsPlain, s[1..])
    ensures Filter(IsPlain, RemoveMentions(s)) == Filter(IsPlain, s)
  {
    var r := RemoveMentions(s[1..]);
    assert RemoveMentions(s) == [s[0]] + r;
    FilterAppend(IsPlain, [s[0]], r);
    FilterAppend(IsPlain, [s[0]], s[1..]);
    assert [s[0]] + s[1..] == s;
  }

  /** Only `@` and handle characters are ever deleted: every other character of the
      input survives, in its original order. */
  lemma {:induction false} PlainTextKept(s: string)
    ensures Filter(IsPlain, RemoveMentions(s)) == Filter(IsPlain, s)
    decreases |s|
  {
    if s != [] {
      var n := HandleLength(s[1..], MaxHandleLength);
      if s[0] == '@' && n > 0 {
        PlainTextKept(s[1 + n..]);
        PlainTextKeptAfterMention(s, n);
      } else {
        PlainTextKept(s[1..]);
        PlainTextKeptAfterChar(s);
      }
    }
  }

  lemma {:induction false} HandleLengthOf(w: string, t: string, budget: nat)
    requires forall i :: 0 <= i < |w| ==> IsHandleChar(w[i])
    requires |w| <= budget
    requires t == [] || !IsHandleChar(t[0]) || |w| == budget
    ensures HandleLength(w + t, budget) == |w|
    decreases |w|
  {
    if w == [] {
      assert w + t == t;
    } else {
      assert (w + t)[0] == w[0];
      assert (w + t)[1..] == w[1..] + t;
      HandleLengthOf(w[1..], t, budget - 1);
    }
  }

  /** The example `"@abc_123 元気？"`: the mention goes, the space it leaves stays
      (the whitespace collapse that follows removes it). */
  lemma MentionExample()
    ensures RemoveMentions("@abc_123 元気？") == " 元気？"
  {
    var w, t := "abc_123", " 元気？";
    assert forall i :: 0 <= i < |w| ==> IsHandleChar(w[i]);
    MentionRemoved(w, t);
    assert "@" + (w + t) == "@abc_123 元気？";
  }

  /** A whole screen name followed by text without `@` leaves just that text. */
  lemma MentionRemoved(w: string, t: string)
    requires 1 <= |w| <= MaxHandleLength
    requires forall i :: 0 <= i < |w| ==> IsHandleChar(w[i])
    requires (t == [] || !IsHandleChar(t[0])) && '@' !in t
    ensures RemoveMentions("@" + (w + t)) == t
  {
    var s := "@" + (w + t);
    assert s[1..] == w + t;
    HandleLengthOf(w, t, MaxHandleLength);
    assert s[1 + |w|..] == t;
    NoAtUnchanged(t);
  }

  /** A mention goes as a whole: `@` and its handle characters, at most 15 of them, are
      deleted and scanning resumes right after them. The handle ends where the text
      stops being handle characters, or at the 15th character, whatever follows. */
  lemma MentionThen(w: string, t: string)
    requires 1 <= |w| <= MaxHandleLength
    requires forall i :: 0 <= i < |w| ==> IsHandleChar(w[i])
    requires t == [] || !IsHandleChar(t[0]) || |w| == MaxHandleLength
    ensures RemoveMentions("@" + (w + t)) == RemoveMentions(t)
  {
    var s := "@" + (w + t);
    assert s[1..] == w + t;
    HandleLengthOf(w, t, MaxHandleLength);
    assert s[1 + |w|..] == t;
  }

  /** Any other character is kept, and scanning goes on with the next one: a character
      other than `@`, or an `@` that no handle character follows. */
  lemma KeptChar(c: char, t: string)
    requires c != '@' || t == [] || !IsHandleChar(t[0])
    ensures RemoveMentions([c] + t) == [c] + RemoveMentions(t)
  {
    var s := [c] + t;
    assert s[0] == c && s[1..] == t;
  }

  /** A 16-character handle loses only its first 15 characters: the cap leaves the last
      one behind as text. */
  lemma LongHandleCapped(w: string, c: char)
    requires |w| == MaxHandleLength && forall i :: 0 <= i < |w| ==> IsHandleChar(w[i])
    requires IsHandleChar(c)
    ensures RemoveMentions("@" + (w + [c])) == [c]
  {
    MentionThen(w, [c]);
    KeptChar(c, []);
    assert [c] + [] == [c];
  }

  /** Every non-empty text falls under `KeptChar` or under `MentionThen`, with the
      handle that `HandleLength` measures; so the two lemmas fix the result on every
      text. */
  lemma ScanCovers(s: string)
    requires s != []
    ensures || (s[0] != '@' || s[1..] == [] || !IsHandleChar(s[1..][0]))
            || (var n := HandleLength(s[1..], MaxHandleLength);
                var w, t := s[1..][..n], s[1..][n..];
                && s == "@" + (w + t)
                && 1 <= |w| <= MaxHandleLength
                && (forall i :: 0 <= i < |w| ==> IsHandleChar(w[i]))
                && (t == [] || !IsHandleChar(t[0]) || |w| == MaxHandleLength))
  {
    var n := HandleLength(s[1..], MaxHandleLength);
    var w, t := s[1..][..n], s[1..][n..];
    if s[0] == '@' && s[1..] != [] && IsHandleChar(s[1..][0]) {
      assert n >= 1;
      assert s[1..] == w + t;
      if t != [] && n < MaxHandleLength {
        assert t[0] == s[1..][n];
      }
    }
  }
}
