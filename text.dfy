/**
 * The few operations of Python's `str` that the block relies on: `strip()`,
 * `lower()`, the substring test `p in s`, `lstrip(c)` and the last-occurrence
 * search behind `rsplit(c, 1)`. Strings are sequences of code points, as a
 * Python `str` is, so `|s|` is Python's `len(s)`.
 */
module Text {
  import opened Wrappers

  /** Python's `str.isspace()`: exactly the characters `str.strip()` removes by default. */
  predicate IsSpace(c: char) {
    ('\U{0009}' <= c && c <= '\U{000D}') || ('\U{001C}' <= c && c <= '\U{001F}')
    || c == ' ' || c == '\U{0085}' || c == '\U{00A0}' || c == '\U{1680}'
    || ('\U{2000}' <= c && c <= '\U{200A}')
    || c == '\U{2028}' || c == '\U{2029}' || c == '\U{202F}' || c == '\U{205F}' || c == '\U{3000}'
  }

  /** `s.lstrip()`: drops the whitespace at the front and nothing else. */
  function StripStart(s: string): (r: string)
    ensures |r| <= |s| && r == s[|s| - |r|..]
    ensures r != [] ==> !IsSpace(r[0])
    ensures forall k :: 0 <= k < |s| - |r| ==> IsSpace(s[k])
  {
    if s != [] && IsSpace(s[0]) then StripStart(s[1..]) else s
  }

  /** `s.rstrip()`: drops the whitespace at the back and nothing else. */
  function StripEnd(s: string): (r: string)
    ensures |r| <= |s| && r == s[..|r|]
    ensures r != [] ==> !IsSpace(r[|r| - 1])
    ensures forall k :: |r| <= k < |s| ==> IsSpace(s[k])
  {
    if s != [] && IsSpace(s[|s| - 1]) then StripEnd(s[..|s| - 1]) else s
  }

  /** `s[i..j]` is what is left of `s` once only whitespace is cut off both ends. */
  ghost predicate TrimmedTo(s: string, i: int, j: int) {
    && 0 <= i <= j <= |s|
    && (forall k :: 0 <= k < i ==> IsSpace(s[k]))
    && (forall k :: j <= k < |s| ==> IsSpace(s[k]))
  }

  /**
   * `s.strip()`: the result is a slice of `s` obtained by cutting only
   * whitespace, and it neither starts nor ends with whitespace.
   */
  function Strip(s: string): (r: string)
    ensures exists i, j :: TrimmedTo(s, i, j) && r == s[i..j]
    ensures r != [] ==> !IsSpace(r[0]) && !IsSpace(r[|r| - 1])
  {
    var t := StripStart(s);
    var r := StripEnd(t);
    assert TrimmedTo(s, |s| - |t|, |s| - |t| + |r|) && r == s[|s| - |t|..|s| - |t| + |r|];
    r
  }

  /** Whitespace added around a string does not change what `strip()` gives. */
  lemma {:induction false} StripIgnoresPadding(pre: string, s: string, post: string)
    requires forall k :: 0 <= k < |pre| ==> IsSpace(pre[k])
    requires forall k :: 0 <= k < |post| ==> IsSpace(post[k])
    ensures Strip(pre + s + post) == Strip(s)
  {
    assert pre + s + post == pre + (s + post);
    StripStartSkipsSpace(pre, s + post);
    assert Strip(pre + s + post) == StripEnd(StripStart(s + post));
    assert Strip(s) == StripEnd(StripStart(s));
    StripStartAppend(s, post);
    if StripStart(s) == [] {
      StripStartSkipsSpace(post, []);
      assert post + [] == post;
      assert StripStart(s + post) == [];
    } else {
      StripEndSkipsSpace(StripStart(s), post);
    }
  }

  /** Leading whitespace is cut by `lstrip()`. */
  lemma {:induction false} StripStartSkipsSpace(pre: string, t: string)
    requires forall k :: 0 <= k < |pre| ==> IsSpace(pre[k])
    ensures StripStart(pre + t) == StripStart(t)
  {
    if pre != [] {
      assert (pre + t)[1..] == pre[1..] + t;
      StripStartSkipsSpace(pre[1..], t);
    } else {
      assert pre + t == t;
    }
  }

  /** Trailing whitespace is cut by `rstrip()`. */
  lemma {:induction false} StripEndSkipsSpace(t: string, post: string)
    requires forall k :: 0 <= k < |post| ==> IsSpace(post[k])
    ensures StripEnd(t + post) == StripEnd(t)
  {
    if post != [] {
      var n := |post|;
      assert (t + post)[..|t| + n - 1] == t + post[..n - 1];
      StripEndSkipsSpace(t, post[..n - 1]);
    } else {
      assert t + post == t;
    }
  }

  /** `lstrip()` of a concatenation: once a non-space is met, the rest is kept. */
  lemma {:induction false} StripStartAppend(s: string, t: string)
    ensures StripStart(s + t) == if StripStart(s) == [] then StripStart(t) else StripStart(s) + t
  {
    if s == [] {
      assert s + t == t;
    } else if IsSpace(s[0]) {
      assert (s + t)[1..] == s[1..] + t;
      StripStartAppend(s[1..], t);
    } else {
      assert (s + t)[0] == s[0];
    }
  }

  /** Python's `c.lower()` on one character, for the ASCII letters. */
  function LowerChar(c: char): char {
    if 'A' <= c <= 'Z' then (c as int + 32) as char else c
  }

  /**
   * Python's `s.lower()`, one character at a time: every upper-case ASCII
   * letter becomes its lower-case letter, every other character is kept, and
   * no upper-case ASCII letter is left.
   */
  function Lower(s: string): (r: string)
    ensures |r| == |s|
    ensures forall k :: 0 <= k < |s| && 'A' <= s[k] <= 'Z' ==> r[k] as int == s[k] as int + 32
    ensures forall k :: 0 <= k < |s| && !('A' <= s[k] <= 'Z') ==> r[k] == s[k]
    ensures forall k :: 0 <= k < |r| ==> !('A' <= r[k] <= 'Z')
  {
    seq(|s|, k requires 0 <= k < |s| => LowerChar(s[k]))
  }

  /** `p` occurs in `s` starting at index `i`. */
  predicate OccursAt(s: string, p: string, i: int) {
    0 <= i && i + |p| <= |s| && s[i..i + |p|] == p
  }

  /**
   * Python's substring test `p in s`: the empty string and `s` itself occur
   * in `s`, and nothing longer than `s` does.
   */
  predicate Contains(s: string, p: string): (r: bool)
    ensures p == [] ==> r
    ensures p == s ==> r
    ensures |p| > |s| ==> !r
  {
    assert p == [] ==> OccursAt(s, p, 0) by {
      if p == [] { assert s[0..0] == p; }
    }
    assert p == s ==> OccursAt(s, p, 0) by {
      if p == s { assert s[0..|s|] == s; }
    }
    exists i :: 0 <= i <= |s| - |p| && OccursAt(s, p, i)
  }

  /** Python's `s.lstrip(c)`: drops every leading copy of `c`. */
  function LStrip(s: string, c: char): (r: string)
    ensures |r| <= |s| && r == s[|s| - |r|..]
    ensures r != [] ==> r[0] != c
    ensures forall k :: 0 <= k < |s| - |r| ==> s[k] == c
  {
    if s != [] && s[0] == c then LStrip(s[1..], c) else s
  }

  /** The index of the last `c` in `s`, as `s.rsplit(c, 1)` splits at it. */
  function LastIndexOf(s: string, c: char): (r: Option<nat>)
    ensures r.None? <==> c !in s
    ensures r.Some? ==> r.value < |s| && s[r.value] == c
                        && forall j :: r.value < j < |s| ==> s[j] != c
  {
    if s == [] then None
    else if s[|s| - 1] == c then Some(|s| - 1)
    else LastIndexOf(s[..|s| - 1], c)
  }

  /** Python's `str(n)` on an integer. */
  function IntToString(n: int): string {
    if n < 0 then "-" + NatToString(-n) else NatToString(n)
  }

  /** Decimal digits of `n`, without leading zeros. */
  function NatToString(n: nat): string
    decreases n
  {
    var d := ['0', '1', '2', '3', '4', '5', '6', '7', '8', '9'][n % 10];
    if n < 10 then [d] else NatToString(n / 10) + [d]
  }
}
