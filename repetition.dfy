/** The flooding test `re.search(r'(.+)\1{n}', text)`: some non-empty unit free of
    line feeds (`.` does not match `\n`) followed immediately by `n` more copies of
    itself, so that `n + 1` copies stand in a row. */
module Repetition {

  /** Arithmetic fact used to bound the scanner: more copies need more room. */
  lemma RunLengthMonotone(k: nat, k': nat, n: nat)
    requires k <= k'
    ensures k <= k * (n + 1) <= k' * (n + 1)
  {
    assert k * (n + 1) == k * n + k;
    assert k' * (n + 1) - k * (n + 1) == (k' - k) * (n + 1);
  }

  /** `s[i..i+k]` is newline-free and is repeated `n` more times right after itself. */
  predicate RunAt(s: string, i: nat, k: nat, n: nat) {
    && k >= 1
    && i + k * (n + 1) <= |s|
    && (forall j :: i <= j < i + k ==> s[j] != '\n')
    && (forall j :: i <= j < i + k * n ==> s[j + k] == s[j])
  }

  /** The pattern matches somewhere in `s`. */
  ghost predicate HasRun(s: string, n: nat) {
    exists i: nat, k: nat :: RunAt(s, i, k, n)
  }

  /** Tries the unit lengths `k, k+1, ...` at position `i`. */
  function SearchLengths(s: string, n: nat, i: nat, k: nat): (r: bool)
    requires k >= 1
    ensures r <==> exists k': nat :: k <= k' && RunAt(s, i, k', n)
    decreases |s| - k
  {
    if i + k * (n + 1) > |s| then
      assert forall k': nat :: k <= k' ==> !RunAt(s, i, k', n) by {
        forall k': nat | k <= k' ensures !RunAt(s, i, k', n) {
          RunLengthMonotone(k, k', n);
        }
      }
      false
    else
      RunLengthMonotone(k, k, n);
      var r := RunAt(s, i, k, n) || SearchLengths(s, n, i, k + 1);
      assert (exists k': nat :: k <= k' && RunAt(s, i, k', n))
         <==> RunAt(s, i, k, n) || exists k': nat :: k + 1 <= k' && RunAt(s, i, k', n);
      r
  }

  /** Tries the start positions `i, i+1, ...`. */
  function SearchFrom(s: string, n: nat, i: nat): (r: bool)
    ensures r <==> exists i': nat, k: nat :: i <= i' && RunAt(s, i', k, n)
    decreases |s| - i
  {
    if i >= |s| then
      assert forall i': nat, k: nat :: i <= i' ==> !RunAt(s, i', k, n) by {
        forall i': nat, k: nat | i <= i' && RunAt(s, i', k, n) ensures false {
          RunLengthMonotone(1, k, n);
        }
      }
      false
    else
      var r := SearchLengths(s, n, i, 1) || SearchFrom(s, n, i + 1);
      assert (exists i': nat, k: nat :: i <= i' && RunAt(s, i', k, n))
         <==> (exists k: nat :: 1 <= k && RunAt(s, i, k, n))
              || (exists i': nat, k: nat :: i + 1 <= i' && RunAt(s, i', k, n));
      r
  }

  /** The executable scanner decides the pattern. */
  function HasRepeat(s: string, n: nat): (r: bool)
    ensures r <==> HasRun(s, n)
  {
    SearchFrom(s, n, 0)
  }

  /** One character five times in a row matches with `n = 4`. */
  lemma FiveInARow()
    ensures HasRepeat("わわわわわ", 4)
  {
    assert RunAt("わわわわわ", 0, 1, 4);
  }

  /** Three copies are too few for `n = 4`. */
  lemma ThreeInARow()
    ensures !HasRepeat("わわわ", 4)
  {
  }
}
