/** The parts of Python's `str` behaviour the decoders rely on: whitespace as `str.isspace`
    sees it, `strip()`, slicing with clamped bounds, and the `in` substring test. */
module Text {

  /** Python's `str.isspace`: the characters `strip()`, `int()` and `float()` discard. */
  predicate IsSpace(c: char) {
    c == ' ' || ('\t' <= c <= '\r') || ('\U{1C}' <= c <= '\U{1F}')
    || c == '\U{85}' || c == '\U{A0}' || c == '\U{1680}'
    || ('\U{2000}' <= c <= '\U{200A}') || c == '\U{2028}' || c == '\U{2029}'
    || c == '\U{202F}' || c == '\U{205F}' || c == '\U{3000}'
  }

  predicate AllSpace(s: string) {
    forall i :: 0 <= i < |s| ==> IsSpace(s[i])
  }

  /** `r` is `s[i..j]` with only whitespace cut away on either side. */
  ghost predicate TrimmedTo(s: string, r: string, i: int, j: int) {
    0 <= i <= j <= |s| && r == s[i..j] && AllSpace(s[..i]) && AllSpace(s[j..])
  }

  /** `s.strip()`: whitespace is removed from the front, then from the back, until neither
      end is whitespace. */
  function Strip(s: string): (r: string)
    ensures |r| <= |s|
    ensures r == [] || (!IsSpace(r[0]) && !IsSpace(r[|r| - 1]))
  {
    if s != [] && IsSpace(s[0]) then Strip(s[1..])
    else if s != [] && IsSpace(s[|s| - 1]) then Strip(s[..|s| - 1])
    else s
  }

  /** `strip()` keeps one contiguous part of the text and cuts away only whitespace on either
      side of it; with the ends of `Strip`'s own contract this fixes the result. */
  lemma {:induction false} StripTrims(s: string)
    ensures exists i, j :: TrimmedTo(s, Strip(s), i, j)
    decreases |s|
  {
    if s != [] && IsSpace(s[0]) {
      StripTrims(s[1..]);
      TrimmedFront(s, Strip(s));
    } else if s != [] && IsSpace(s[|s| - 1]) {
      StripTrims(s[..|s| - 1]);
      TrimmedBack(s, s[..|s| - 1], Strip(s));
    } else {
      assert Strip(s) == s;
      assert TrimmedTo(s, Strip(s), 0, |s|);
    }
  }

  /** Cutting a leading space before trimming is still trimming. */
  lemma TrimmedFront(s: string, r: string)
    requires s != [] && IsSpace(s[0]) && exists i, j :: TrimmedTo(s[1..], r, i, j)
    ensures exists i, j :: TrimmedTo(s, r, i, j)
  {
    var i, j :| TrimmedTo(s[1..], r, i, j);
    assert s[..i + 1] == [s[0]] + s[1..][..i];
    assert s[j + 1..] == s[1..][j..];
    assert TrimmedTo(s, r, i + 1, j + 1);
  }

  /** Cutting a trailing space before trimming is still trimming. */
  lemma TrimmedBack(s: string, front: string, r: string)
    requires s != [] && IsSpace(s[|s| - 1]) && front == s[..|s| - 1]
    requires exists i, j :: TrimmedTo(front, r, i, j)
    ensures exists i, j :: TrimmedTo(s, r, i, j)
  {
    var i, j :| TrimmedTo(front, r, i, j);
    assert front[..i] == s[..i];
    assert s[j..] == front[j..] + [s[|s| - 1]];
    assert TrimmedTo(s, r, i, j);
  }

  /** `strip()` removes whitespace only, and all of it exactly when there is nothing else. */
  lemma {:induction false} StripEmpty(s: string)
    ensures Strip(s) == [] <==> AllSpace(s)
    decreases |s|
  {
    if s != [] && IsSpace(s[0]) {
      StripEmpty(s[1..]);
      assert AllSpace(s) <==> AllSpace(s[1..]) by {
        assert forall i :: 0 < i < |s| ==> s[i] == s[1..][i - 1];
      }
    } else if s != [] && IsSpace(s[|s| - 1]) {
      StripEmpty(s[..|s| - 1]);
      assert AllSpace(s) <==> AllSpace(s[..|s| - 1]) by {
        assert forall i :: 0 <= i < |s| - 1 ==> s[i] == s[..|s| - 1][i];
      }
    }
  }

  /** `strip()` only removes characters. */
  lemma {:induction false} StripKeepsChars(s: string, c: char)
    requires c in Strip(s)
    ensures c in s
    decreases |s|
  {
    if s != [] && IsSpace(s[0]) {
      StripKeepsChars(s[1..], c);
    } else if s != [] && IsSpace(s[|s| - 1]) {
      StripKeepsChars(s[..|s| - 1], c);
    }
  }

  /** `strip()` adds no character the text lacks. */
  lemma StripAvoids(s: string, c: char)
    requires c !in s
    ensures c !in Strip(s)
  {
    if c in Strip(s) {
      StripKeepsChars(s, c);
    }
  }

  /** Text without whitespace at either end is its own `strip()`. */
  lemma StripTrimmed(s: string)
    requires s == [] || (!IsSpace(s[0]) && !IsSpace(s[|s| - 1]))
    ensures Strip(s) == s
  {
  }

  /** `strip()` is idempotent. */
  lemma StripIdempotent(s: string)
    ensures Strip(Strip(s)) == Strip(s)
  {
    StripTrimmed(Strip(s));
  }

  /** Python's `s[i:j]` for non-negative bounds: both ends are clamped to `len(s)` and an
      empty range gives the empty string instead of an error. */
  function Slice(s: string, i: nat, j: nat): (r: string)
    ensures i < j && i < |s| ==> |r| == (if j <= |s| then j else |s|) - i
    ensures !(i < j && i < |s|) ==> r == []
    ensures forall k :: 0 <= k < |r| ==> r[k] == s[i + k]
  {
    if i < j && i < |s| then s[i..if j <= |s| then j else |s|] else []
  }

  /** Slicing a slice from its start is one slice (how a field window's first four characters
      are read). */
  lemma SliceOfSlice(s: string, i: nat, w: nat, k: nat)
    requires k <= w
    ensures Slice(Slice(s, i, i + w), 0, k) == Slice(s, i, i + k)
  {
    var a := Slice(s, i, i + w);
    var b := Slice(a, 0, k);
    var c := Slice(s, i, i + k);
    assert |b| == |c|;
    forall n | 0 <= n < |b| ensures b[n] == c[n] {}
  }

  ghost predicate OccursAt(s: string, t: string, i: int) {
    0 <= i && i + |t| <= |s| && s[i..i + |t|] == t
  }

  /** Python's `t in s` for strings. */
  function Contains(s: string, t: string): (r: bool)
    ensures r <==> exists i :: OccursAt(s, t, i)
    decreases |s|
  {
    if |t| > |s| then
      assert forall i :: !OccursAt(s, t, i);
      false
    else if s[..|t|] == t then
      assert OccursAt(s, t, 0);
      true
    else
      var rest := Contains(s[1..], t);
      assert forall i :: OccursAt(s[1..], t, i) ==> OccursAt(s, t, i + 1) by {
        forall i | OccursAt(s[1..], t, i) ensures OccursAt(s, t, i + 1) {
          assert s[1..][i..i + |t|] == s[i + 1..i + 1 + |t|];
        }
      }
      assert forall i :: OccursAt(s, t, i) && i > 0 ==> OccursAt(s[1..], t, i - 1) by {
        forall i | OccursAt(s, t, i) && i > 0 ensures OccursAt(s[1..], t, i - 1) {
          assert s[1..][i - 1..i - 1 + |t|] == s[i..i + |t|];
        }
      }
      rest
  }

  /** A text without the first character of `t` does not contain `t`. */
  lemma FirstCharAbsent(s: string, t: string)
    requires t != [] && t[0] !in s
    ensures !Contains(s, t)
  {
  }

  /** A prefix one longer is the prefix plus the next element. */
  lemma PrefixStep<T>(s: seq<T>, n: nat)
    requires n < |s|
    ensures s[..n + 1] == s[..n] + [s[n]]
  {
  }
}
