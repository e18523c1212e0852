/** The JavaScript string primitives the dashboard script relies on:
    `startsWith`, `includes`, `indexOf`, the `\s` character class,
    `String.prototype.trim`, and the control-character strip applied to
    every inbound transport message. Strings are sequences of `char`. */
module JsText {
  import opened Wrappers

  /** The characters JavaScript's `\s` matches and `trim` removes: the
      ECMAScript WhiteSpace and LineTerminator productions. */
  predicate IsJsSpace(c: char) {
    || c == '\t' || c == '\n' || c == '\U{0B}' || c == '\U{0C}' || c == '\r'
    || c == ' ' || c == '\U{A0}' || c == '\U{1680}'
    || ('\U{2000}' <= c <= '\U{200A}')
    || c == '\U{2028}' || c == '\U{2029}' || c == '\U{202F}' || c == '\U{205F}'
    || c == '\U{3000}' || c == '\U{FEFF}'
  }

  /** The regular-expression class `\d`. */
  predicate IsDigit(c: char) {
    '0' <= c <= '9'
  }

  /** The regular-expression class `[0-9A-Fa-f]`. */
  predicate IsHexDigit(c: char) {
    IsDigit(c) || 'a' <= c <= 'f' || 'A' <= c <= 'F'
  }

  /** The regular-expression class `[^\n]`. */
  predicate NotNewline(c: char) {
    c != '\n'
  }

  /** Every character of `s[a..b]` belongs to `cls`. */
  predicate AllIn(s: string, a: int, b: int, cls: char -> bool)
    requires 0 <= a <= b <= |s|
  {
    forall k | a <= k < b :: cls(s[k])
  }

  /** `s.startsWith(p)` */
  predicate StartsWith(s: string, p: string) {
    |p| <= |s| && s[..|p|] == p
  }

  /** `p` occurs in `s` starting at index `i`. */
  predicate OccursAt(s: string, p: string, i: int) {
    0 <= i && i + |p| <= |s| && s[i..i + |p|] == p
  }

  /** The search behind `s.includes(p)`: the first occurrence of `p` at or
      after `from`, or `None` when there is none. For a non-empty `p` and
      `from` within `s` this is `s.indexOf(p, from)`, with `None` for -1;
      JavaScript's clamping of a `from` past the end is not modelled, since
      the classifier only searches from 0 for non-empty keywords. */
  function IndexOf(s: string, p: string, from: nat): (r: Option<nat>)
    ensures r.Some? ==> from <= r.value && OccursAt(s, p, r.value)
    ensures r.Some? ==> forall i | from <= i < r.value :: !OccursAt(s, p, i)
    ensures r.None? ==> forall i | from <= i :: !OccursAt(s, p, i)
    decreases |s| - from
  {
    if from + |p| > |s| then None
    else if s[from..from + |p|] == p then Some(from)
    else IndexOf(s, p, from + 1)
  }

  /** `s.includes(p)` */
  predicate Includes(s: string, p: string) {
    IndexOf(s, p, 0).Some?
  }

  /** `includes` holds exactly when the pattern occurs somewhere. */
  lemma IncludesIff(s: string, p: string)
    ensures Includes(s, p) <==> exists i :: OccursAt(s, p, i)
  {
    if Includes(s, p) {
      assert OccursAt(s, p, IndexOf(s, p, 0).value);
    }
  }

  /** The end of the longest run of `cls` characters that starts at `from`. */
  function RunEnd(s: string, from: nat, cls: char -> bool): (j: nat)
    requires from <= |s|
    ensures from <= j <= |s|
    ensures AllIn(s, from, j, cls)
    ensures j < |s| ==> !cls(s[j])
    decreases |s| - from
  {
    if from < |s| && cls(s[from]) then RunEnd(s, from + 1, cls) else from
  }

  /** No run of `cls` characters from `from` extends past `RunEnd`. */
  lemma {:induction false} RunEndMaximal(s: string, from: nat, x: nat, cls: char -> bool)
    requires from <= x <= |s| && AllIn(s, from, x, cls)
    ensures x <= RunEnd(s, from, cls)
    decreases x - from
  {
    if from < x {
      assert cls(s[from]);
      RunEndMaximal(s, from + 1, x, cls);
    }
  }

  /** The start of the longest run of `cls` characters that ends at `to`. */
  function RunStart(s: string, to: nat, cls: char -> bool): (i: nat)
    requires to <= |s|
    ensures i <= to
    ensures AllIn(s, i, to, cls)
    ensures 0 < i ==> !cls(s[i - 1])
  {
    if 0 < to && cls(s[to - 1]) then RunStart(s, to - 1, cls) else to
  }

  /** `s` is `r` with only whitespace added on either side. */
  ghost predicate IsTrimOf(r: string, s: string) {
    exists a | 0 <= a <= |s| - |r| ::
      && s[a..a + |r|] == r
      && AllIn(s, 0, a, IsJsSpace)
      && AllIn(s, a + |r|, |s|, IsJsSpace)
  }

  /** `s.trim()` */
  function Trim(s: string): (r: string)
    ensures IsTrimOf(r, s)
    ensures r == "" <==> AllIn(s, 0, |s|, IsJsSpace)
    ensures r != "" ==> !IsJsSpace(r[0]) && !IsJsSpace(r[|r| - 1])
  {
    var a := RunEnd(s, 0, IsJsSpace);
    if a == |s| then
      assert AllIn(s, 0, 0, IsJsSpace) && AllIn(s, 0, |s|, IsJsSpace);
      assert s[0..0] == "";
      ""
    else
      var b := RunStart(s, |s|, IsJsSpace);
      assert !IsJsSpace(s[a]);
      assert a < b;
      var r := s[a..b];
      assert s[a..a + |r|] == r;
      assert !AllIn(s, 0, |s|, IsJsSpace) by {
        assert !IsJsSpace(s[a]);
      }
      r
  }

  /** Trimming only removes characters, so a class every character of `s`
      belongs to still covers the result. */
  lemma TrimKeepsClass(s: string, cls: char -> bool)
    requires AllIn(s, 0, |s|, cls)
    ensures AllIn(Trim(s), 0, |Trim(s)|, cls)
  {
    var r := Trim(s);
    var a :|
      && 0 <= a <= |s| - |r|
      && s[a..a + |r|] == r
      && AllIn(s, 0, a, IsJsSpace)
      && AllIn(s, a + |r|, |s|, IsJsSpace);
    assert forall k | 0 <= k < |r| :: r[k] == s[a + k];
  }

  /** A string with no whitespace at either end is its own trim. */
  lemma TrimUntouched(s: string)
    requires s != "" ==> !IsJsSpace(s[0]) && !IsJsSpace(s[|s| - 1])
    ensures Trim(s) == s
  {
    if s != "" {
      var a := RunEnd(s, 0, IsJsSpace);
      assert a == 0;
      var b := RunStart(s, |s|, IsJsSpace);
      assert b == |s|;
    }
  }

  /** Trimming twice is trimming once. */
  lemma TrimIdempotent(s: string)
    ensures Trim(Trim(s)) == Trim(s)
  {
    TrimUntouched(Trim(s));
  }

  /** The character ranges U+0000..U+001F and U+007F..U+009F that the
      inbound message filter removes. */
  predicate IsControl(c: char) {
    c <= '\U{1F}' || ('\U{7F}' <= c <= '\U{9F}')
  }

  /** The number of control characters in `s`. */
  function ControlCount(s: string): nat {
    if s == [] then 0
    else (if IsControl(s[0]) then 1 else 0) + ControlCount(s[1..])
  }

  /** `a` can be obtained from `b` by deleting characters. */
  predicate IsSubsequence(a: string, b: string)
    decreases |b|
  {
    if a == [] then true
    else if b == [] then false
    else (a[0] == b[0] && IsSubsequence(a[1..], b[1..])) || IsSubsequence(a, b[1..])
  }

  /** `s.replace(/[\u0000-\u001F\u007F-\u009F]/g, '')`: the result keeps
      every non-control character of `s`, in order, and nothing else. */
  function StripControl(s: string): (r: string)
    ensures forall k | 0 <= k < |r| :: !IsControl(r[k])
    ensures IsSubsequence(r, s)
    ensures |r| + ControlCount(s) == |s|
  {
    if s == [] then ""
    else if IsControl(s[0]) then StripControl(s[1..])
    else
      var rest := StripControl(s[1..]);
      var r := [s[0]] + rest;
      assert r[1..] == rest;
      r
  }

  /** A string without control characters passes the filter unchanged, so
      filtering twice is filtering once. */
  lemma {:induction false} StripControlClean(s: string)
    requires forall k | 0 <= k < |s| :: !IsControl(s[k])
    ensures StripControl(s) == s
  {
    if s != [] {
      StripControlClean(s[1..]);
      assert [s[0]] + s[1..] == s;
    }
  }

  lemma StripControlIdempotent(s: string)
    ensures StripControl(StripControl(s)) == StripControl(s)
  {
    StripControlClean(StripControl(s));
  }
}
