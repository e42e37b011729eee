/**
 * The string functions the server's request rules rely on: Rust's
 * `str::trim` (Unicode `White_Space` at both ends) and the SQL `lower()`
 * used for case-insensitive username lookups.
 */
module ServerText {

  /** Rust's `char::is_whitespace`: the Unicode `White_Space` property. */
  predicate IsWhitespace(c: char) {
    || c == ' '
    || ('\t' <= c <= '\r')
    || c == '\U{0085}'
    || c == '\U{00A0}'
    || c == '\U{1680}'
    || ('\U{2000}' <= c <= '\U{200A}')
    || c == '\U{2028}'
    || c == '\U{2029}'
    || c == '\U{202F}'
    || c == '\U{205F}'
    || c == '\U{3000}'
  }

  /** Every character of `s` in `lo..hi` is whitespace. */
  predicate SpaceBetween(s: string, lo: int, hi: int) {
    forall k :: lo <= k < hi && 0 <= k < |s| ==> IsWhitespace(s[k])
  }

  /** The first index from `i` on that is not whitespace (`|s|` if none). */
  function SkipLeading(s: string, i: nat): (n: nat)
    requires i <= |s|
    ensures i <= n <= |s|
    ensures SpaceBetween(s, i, n)
    ensures n == |s| || !IsWhitespace(s[n])
    decreases |s| - i
  {
    if i == |s| || !IsWhitespace(s[i]) then i else SkipLeading(s, i + 1)
  }

  /** Moving down from `j` but not below `i`, the end of the last non-whitespace character. */
  function SkipTrailing(s: string, i: nat, j: nat): (n: nat)
    requires i <= j <= |s|
    ensures i <= n <= j
    ensures SpaceBetween(s, n, j)
    ensures n == i || !IsWhitespace(s[n - 1])
    decreases j
  {
    if j == i || !IsWhitespace(s[j - 1]) then j else SkipTrailing(s, i, j - 1)
  }

  /**
   * `trim`: the middle of `s` once the whitespace at both ends is removed;
   * what remains neither starts nor ends with whitespace.
   */
  function Trim(s: string): (r: string)
    ensures exists i, j :: 0 <= i <= j <= |s| && r == s[i..j] && SpaceBetween(s, 0, i) && SpaceBetween(s, j, |s|)
    ensures r == [] || (!IsWhitespace(r[0]) && !IsWhitespace(r[|r| - 1]))
  {
    var i := SkipLeading(s, 0);
    var j := SkipTrailing(s, i, |s|);
    assert i == j || (s[i..j][0] == s[i] && s[i..j][j - i - 1] == s[j - 1]);
    s[i..j]
  }

  /** Trimming leaves nothing exactly when the text is all whitespace. */
  lemma TrimEmpty(s: string)
    ensures Trim(s) == [] <==> SpaceBetween(s, 0, |s|)
  {
    var i, j :| 0 <= i <= j <= |s| && Trim(s) == s[i..j] && SpaceBetween(s, 0, i) && SpaceBetween(s, j, |s|);
    if Trim(s) == [] {
      assert i == j;
      forall k | 0 <= k < |s|
        ensures IsWhitespace(s[k])
      {
        if k >= i {
          assert j <= k < |s|;
        }
      }
    } else {
      assert s[i..j][0] == s[i];
    }
  }

  /** Trimming twice is trimming once. */
  lemma TrimIdempotent(s: string)
    ensures Trim(Trim(s)) == Trim(s)
  {
    var t := Trim(s);
    var i, j :| 0 <= i <= j <= |t| && Trim(t) == t[i..j] && SpaceBetween(t, 0, i) && SpaceBetween(t, j, |t|);
    if t != [] {
      // Cutting anything from `t` would cut one of its ends, which are not whitespace.
      assert SpaceBetween(t, 0, i) && SpaceBetween(t, j, |t|);
      assert !IsWhitespace(t[0]) && !IsWhitespace(t[|t| - 1]);
      assert i == 0 && j == |t|;
    }
    assert t[0..|t|] == t;
  }

  /** The case mapping of SQL `lower()` on ASCII letters. */
  function LowerChar(c: char): (l: char)
    ensures 'A' <= c <= 'Z' ==> l as int == c as int + 32
    ensures !('A' <= c <= 'Z') ==> l == c
  {
    if 'A' <= c <= 'Z' then (c as int + 32) as char else c
  }

  /** SQL `lower()`, character by character. */
  function Lower(s: string): (r: string)
    ensures |r| == |s| && forall i :: 0 <= i < |s| ==> r[i] == LowerChar(s[i])
  {
    seq(|s|, i requires 0 <= i < |s| => LowerChar(s[i]))
  }

  /** `lower(a) = lower(b)`. */
  predicate SameIgnoringCase(a: string, b: string) {
    Lower(a) == Lower(b)
  }

  /** Usernames that differ only in the case of their letters are the same name. */
  lemma CaseVariantsCollide(a: string, b: string)
    requires |a| == |b|
    requires forall i :: 0 <= i < |a| ==> a[i] == b[i] || LowerChar(a[i]) == LowerChar(b[i])
    ensures SameIgnoringCase(a, b)
  {
  }

  /** Lowering is idempotent. */
  lemma LowerIdempotent(s: string)
    ensures Lower(Lower(s)) == Lower(s)
  {
  }
}
