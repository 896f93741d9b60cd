/** Script classes of the cleaning step: the Japanese ranges
    U+3000-U+30FF (CJK punctuation, hiragana, katakana) and U+4E00-U+9FFF
    (unified ideographs), optionally widened by ASCII U+0000-U+007F. */
module Script {
  import opened SeqUtil

  /** A Japanese character: one of the two ranges above. */
  predicate IsJa(c: char) {
    (0x3000 <= c as int <= 0x30FF) || (0x4E00 <= c as int <= 0x9FFF)
  }

  /** An ASCII character. */
  predicate IsAscii(c: char) {
    c as int <= 0x7F
  }

  /** The complement of the non-Japanese pattern: Japanese, plus ASCII when
      `includeAscii` is set. */
  predicate IsAllowed(c: char, includeAscii: bool) {
    IsJa(c) || (includeAscii && IsAscii(c))
  }

  /** `ja.search(text)`: some character is Japanese. */
  function HasJa(s: string): (r: bool)
    ensures r <==> exists i :: 0 <= i < |s| && IsJa(s[i])
  {
    if s == [] then false
    else if IsJa(s[0]) then true
    else
      var r := HasJa(s[1..]);
      assert forall i :: 1 <= i < |s| ==> s[i] == s[1..][i - 1];
      r
  }

  /** `non_ja.search(text)`: some character is outside the allowed set. */
  function HasDisallowed(s: string, includeAscii: bool): (r: bool)
    ensures r <==> exists i :: 0 <= i < |s| && !IsAllowed(s[i], includeAscii)
  {
    if s == [] then false
    else if !IsAllowed(s[0], includeAscii) then true
    else
      var r := HasDisallowed(s[1..], includeAscii);
      assert forall i :: 1 <= i < |s| ==> s[i] == s[1..][i - 1];
      r
  }

  /** `non_ja.sub('', text)`: every character outside the allowed set deleted. */
  function RemoveDisallowed(s: string, includeAscii: bool): (r: string)
    ensures forall i :: 0 <= i < |r| ==> IsAllowed(r[i], includeAscii)
    ensures forall i :: 0 <= i < |s| && IsAllowed(s[i], includeAscii) ==> s[i] in r
    ensures IsSubsequence(r, s)
  {
    if s == [] then []
    else
      var r := RemoveDisallowed(s[1..], includeAscii);
      assert forall i :: 1 <= i < |s| ==> s[i] == s[1..][i - 1];
      if IsAllowed(s[0], includeAscii) then
        assert ([s[0]] + r)[1..] == r;
        [s[0]] + r
      else
        r
  }

  /** The allowed-set test as a function value, for `Filter`. */
  function AllowedIn(includeAscii: bool): char -> bool {
    c => IsAllowed(c, includeAscii)
  }

  /** The strip keeps exactly the allowed characters, each occurrence in its place:
      it is the filter of the input by the allowed set. */
  lemma {:induction false} RemoveDisallowedIsFilter(s: string, includeAscii: bool)
    ensures RemoveDisallowed(s, includeAscii) == Filter(AllowedIn(includeAscii), s)
  {
    if s != [] {
      RemoveDisallowedIsFilter(s[1..], includeAscii);
    }
  }

  lemma {:induction false} RemoveDisallowedAppend(a: string, b: string, includeAscii: bool)
    ensures RemoveDisallowed(a + b, includeAscii)
         == RemoveDisallowed(a, includeAscii) + RemoveDisallowed(b, includeAscii)
    decreases |a|
  {
    if a == [] {
      assert a + b == b;
    } else {
      RemoveDisallowedAppend(a[1..], b, includeAscii);
      assert (a + b)[1..] == a[1..] + b;
      assert (a + b)[0] == a[0];
    }
  }

  /** Text already inside the allowed set is left as it is. */
  lemma {:induction false} RemoveDisallowedKeepsAllowed(s: string, includeAscii: bool)
    requires !HasDisallowed(s, includeAscii)
    ensures RemoveDisallowed(s, includeAscii) == s
  {
    if s != [] {
      RemoveDisallowedKeepsAllowed(s[1..], includeAscii);
    }
  }

  lemma {:induction false} RemoveDisallowedDropsAll(s: string, includeAscii: bool)
    requires forall i :: 0 <= i < |s| ==> !IsAllowed(s[i], includeAscii)
    ensures RemoveDisallowed(s, includeAscii) == []
  {
    if s != [] {
      RemoveDisallowedDropsAll(s[1..], includeAscii);
    }
  }

  /** The strip is idempotent. */
  lemma RemoveDisallowedIdempotent(s: string, includeAscii: bool)
    ensures RemoveDisallowed(RemoveDisallowed(s, includeAscii), includeAscii)
         == RemoveDisallowed(s, includeAscii)
  {
    RemoveDisallowedKeepsAllowed(RemoveDisallowed(s, includeAscii), includeAscii);
  }

  /** Japanese text followed by disallowed text keeps only the Japanese part. */
  lemma StripSuffix(ja: string, rest: string, includeAscii: bool)
    requires forall i :: 0 <= i < |ja| ==> IsAllowed(ja[i], includeAscii)
    requires forall i :: 0 <= i < |rest| ==> !IsAllowed(rest[i], includeAscii)
    ensures RemoveDisallowed(ja + rest, includeAscii) == ja
  {
    RemoveDisallowedAppend(ja, rest, includeAscii);
    RemoveDisallowedKeepsAllowed(ja, includeAscii);
    RemoveDisallowedDropsAll(rest, includeAscii);
    assert ja + [] == ja;
  }

  /** The example `"こんにちはhello"` becomes `"こんにちは"` under the Japanese-only set. */
  lemma StripExample()
    ensures RemoveDisallowed("こんにちはhello", false) == "こんにちは"
  {
    var ja, latin := "こんにちは", "hello";
    assert forall i :: 0 <= i < |ja| ==> IsJa(ja[i]);
    assert forall i :: 0 <= i < |latin| ==> !IsAllowed(latin[i], false);
    StripSuffix(ja, latin, false);
    assert ja + latin == "こんにちはhello";
  }
}
