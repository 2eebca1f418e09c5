/** JavaScript string primitives used by the extraction engine, over `seq<char>`. */
module Text {

  datatype Option<+T> = None | Some(value: T)

  type String = seq<char>

  /** The ECMAScript `\s` class: WhiteSpace and LineTerminator code points. `trim` strips the same set. */
  predicate IsWhitespace(c: char) {
    || c == '\t' || c == '\n' || c == '\U{B}' || c == '\U{C}' || c == '\r' || c == ' '
    || c == '\U{A0}' || c == '\U{1680}' || ('\U{2000}' <= c <= '\U{200A}')
    || c == '\U{2028}' || c == '\U{2029}' || c == '\U{202F}' || c == '\U{205F}'
    || c == '\U{3000}' || c == '\U{FEFF}'
  }

  /** The characters a regex `.` does not match. */
  predicate IsLineTerminator(c: char) {
    c == '\n' || c == '\r' || c == '\U{2028}' || c == '\U{2029}'
  }

  /** The regex class `\w`. */
  predicate IsWordChar(c: char) {
    ('a' <= c <= 'z') || ('A' <= c <= 'Z') || ('0' <= c <= '9') || c == '_'
  }

  predicate IsDigit(c: char) {
    '0' <= c <= '9'
  }

  /** `toLowerCase` on the ASCII letters; every other character is left alone. */
  function LowerChar(c: char): char {
    if 'A' <= c <= 'Z' then (c as int + 32) as char else c
  }

  function Lower(s: String): String {
    seq(|s|, i requires 0 <= i < |s| => LowerChar(s[i]))
  }

  predicate StartsWith(s: String, prefix: String) {
    prefix <= s
  }

  predicate OccursAt(s: String, sub: String, i: int) {
    0 <= i && i + |sub| <= |s| && s[i..i + |sub|] == sub
  }

  /** `s.includes(sub)`. */
  predicate Contains(s: String, sub: String) {
    exists i :: 0 <= i <= |s| && OccursAt(s, sub, i)
  }

  /** The least position in `[from, to)` where `p` holds: the leftmost start of a regex match. */
  function FirstMatch(from: nat, to: nat, p: nat -> bool): (r: Option<nat>)
    decreases to - from
    ensures r.Some? ==> from <= r.value < to && p(r.value)
    ensures r.Some? ==> forall k: nat :: from <= k < r.value ==> !p(k)
    ensures r.None? ==> forall k: nat :: from <= k < to ==> !p(k)
  {
    if from >= to then None
    else if p(from) then Some(from)
    else FirstMatch(from + 1, to, p)
  }

  /** The leftmost position where `p` holds is what `FirstMatch` finds. */
  lemma FirstMatchIsLeast(from: nat, to: nat, p: nat -> bool, q: nat)
    requires from <= q < to && p(q)
    requires forall k: nat :: from <= k < q ==> !p(k)
    ensures FirstMatch(from, to, p) == Some(q)
  {
  }

  /** The first position at or after `from` holding `c`. */
  function FindChar(s: String, c: char, from: nat): (r: Option<nat>)
    decreases |s| - from
    ensures r.Some? ==> from <= r.value < |s| && s[r.value] == c
    ensures r.Some? ==> forall k :: from <= k < r.value ==> s[k] != c
    ensures r.None? ==> forall k :: from <= k < |s| ==> s[k] != c
  {
    if from >= |s| then None
    else if s[from] == c then Some(from)
    else FindChar(s, c, from + 1)
  }

  lemma FindCharIsLeast(s: String, c: char, from: nat, q: nat)
    requires from <= q < |s| && s[q] == c
    requires forall k :: from <= k < q ==> s[k] != c
    ensures FindChar(s, c, from) == Some(q)
  {
  }

  /** The greatest position below `to` where `p` holds. */
  function LastMatch(to: nat, p: nat -> bool): (r: Option<nat>)
    ensures r.Some? ==> r.value < to && p(r.value)
    ensures r.Some? ==> forall k: nat :: r.value < k < to ==> !p(k)
    ensures r.None? ==> forall k: nat :: k < to ==> !p(k)
  {
    if to == 0 then None
    else if p(to - 1) then Some(to - 1)
    else LastMatch(to - 1, p)
  }

  /** `s.indexOf(sub)`: the first occurrence, or -1. */
  function IndexOf(s: String, sub: String): (r: int)
    ensures r == -1 <==> !Contains(s, sub)
    ensures r >= 0 ==> OccursAt(s, sub, r) && forall k :: 0 <= k < r ==> !OccursAt(s, sub, k)
  {
    var p := (k: nat) => OccursAt(s, sub, k);
    assert forall k: nat :: p(k) == OccursAt(s, sub, k);
    match FirstMatch(0, |s| + 1, p)
    case Some(k) => k
    case None => -1
  }

  /** `s.lastIndexOf(sub)`: the last occurrence, or -1. */
  function LastIndexOf(s: String, sub: String): (r: int)
    ensures r == -1 <==> !Contains(s, sub)
    ensures r >= 0 ==> OccursAt(s, sub, r) && forall k :: r < k <= |s| ==> !OccursAt(s, sub, k)
  {
    var p := (k: nat) => OccursAt(s, sub, k);
    assert forall k: nat :: p(k) == OccursAt(s, sub, k);
    match LastMatch(|s| + 1, p)
    case Some(k) => k
    case None => -1
  }

  function Clamp(x: int, n: nat): (r: nat)
    ensures r <= n
  {
    if x < 0 then 0 else if x > n then n else x
  }

  /** `s.substring(start, end)`: both bounds clamped to `[0, |s|]`, swapped when start exceeds end. */
  function Substring(s: String, start: int, end: int): String {
    var a, b := Clamp(start, |s|), Clamp(end, |s|);
    if a <= b then s[a..b] else s[b..a]
  }

  /** The first position from `i` on that does not hold whitespace, or `|s|`. */
  function SkipWhitespace(s: String, i: nat): (r: nat)
    requires i <= |s|
    decreases |s| - i
    ensures i <= r <= |s|
    ensures forall k :: i <= k < r ==> IsWhitespace(s[k])
    ensures r < |s| ==> !IsWhitespace(s[r])
  {
    if i < |s| && IsWhitespace(s[i]) then SkipWhitespace(s, i + 1) else i
  }

  /** The end of the last character before `j` that is not whitespace, or `lo` when there is none from `lo` on. */
  function SkipWhitespaceBack(s: String, lo: nat, j: nat): (r: nat)
    requires lo <= j <= |s|
    decreases j - lo
    ensures lo <= r <= j
    ensures forall k :: r <= k < j ==> IsWhitespace(s[k])
    ensures r > lo ==> !IsWhitespace(s[r - 1])
  {
    if j > lo && IsWhitespace(s[j - 1]) then SkipWhitespaceBack(s, lo, j - 1) else j
  }

  /** `s.trim()`: the slice of `s` left once the whitespace at both ends is removed. */
  function Trim(s: String): (r: String)
    ensures r != [] ==> !IsWhitespace(r[0]) && !IsWhitespace(r[|r| - 1])
    ensures var i := SkipWhitespace(s, 0);
      && i + |r| <= |s| && r == s[i..i + |r|]
      && (forall k :: 0 <= k < i ==> IsWhitespace(s[k]))
      && (forall k :: i + |r| <= k < |s| ==> IsWhitespace(s[k]))
  {
    var a := SkipWhitespace(s, 0);
    var b := SkipWhitespaceBack(s, a, |s|);
    s[a..b]
  }

  /**
   * Trimming text whose only whitespace is the plain space leaves text of that
   * kind, with no space at either end.
   */
  lemma TrimKeepsSpaces(s: String)
    requires forall k :: 0 <= k < |s| && IsWhitespace(s[k]) ==> s[k] == ' '
    ensures var r := Trim(s);
      && |r| <= |s|
      && (forall k :: 0 <= k < |r| && IsWhitespace(r[k]) ==> r[k] == ' ')
      && (r != [] ==> r[0] != ' ' && r[|r| - 1] != ' ')
  {
    var a := SkipWhitespace(s, 0);
    var b := SkipWhitespaceBack(s, a, |s|);
    var r := Trim(s);
    assert r == s[a..b];
    forall k | 0 <= k < |r| ensures r[k] == s[a + k] {
    }
  }

  /** Text whose ends are not whitespace is left alone by `trim`. */
  lemma TrimKeepsTrimmed(s: String)
    requires s != [] ==> !IsWhitespace(s[0]) && !IsWhitespace(s[|s| - 1])
    ensures Trim(s) == s
  {
    assert SkipWhitespace(s, 0) == 0;
    assert s[0..|s|] == s;
  }

  /** The decimal rendering of a natural number, as a template literal prints it. */
  function DecimalString(n: nat): (r: String)
    ensures |r| >= 1 && forall i :: 0 <= i < |r| ==> IsDigit(r[i])
    ensures n >= 10 ==> |r| >= 2
  {
    if n < 10 then [DigitChar(n)] else DecimalString(n / 10) + [DigitChar(n % 10)]
  }

  function DigitChar(d: nat): (c: char)
    requires d < 10
    ensures IsDigit(c) && c as int - '0' as int == d
  {
    ('0' as int + d) as char
  }

  /** Distinct numbers print differently. */
  lemma {:induction false} DecimalStringInjective(a: nat, b: nat)
    requires DecimalString(a) == DecimalString(b)
    ensures a == b
  {
    var da, db := DecimalString(a), DecimalString(b);
    if a >= 10 && b >= 10 {
      assert da[|da| - 1] == db[|db| - 1];
      assert DecimalString(a / 10) == da[..|da| - 1] == db[..|db| - 1] == DecimalString(b / 10);
      DecimalStringInjective(a / 10, b / 10);
    } else if a < 10 && b < 10 {
      assert da[0] == db[0];
    }
  }
}
