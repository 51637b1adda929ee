/**
  The Python string built-ins that `create_ppt` relies on: `sub in s`,
  `s.index(sub)`, `s.split(sep)`, `s.strip()` and the slice `s[a:b]`,
  each with the semantics CPython gives it. Strings are sequences of
  Unicode scalar values; a Python `str` may also hold lone surrogates,
  which a Dafny `char` cannot, and none of which is whitespace or one of
  the characters `create_ppt` looks for.

  The functions carry no quantified postconditions; what they mean is
  stated by the lemmas beside them, so that a proof about the slides only
  pays for the facts it asks for.
 */
module PyStr {
  import opened Wrappers

  /** The characters `str.strip()` without arguments removes: those for which `str.isspace()` holds. */
  predicate IsSpace(c: char) {
    c == ' ' || c == '\t' || c == '\n' || c == '\r' || c == '\U{0B}' || c == '\U{0C}'
    || c == '\U{1C}' || c == '\U{1D}' || c == '\U{1E}' || c == '\U{1F}'
    || c == '\U{85}' || c == '\U{A0}' || c == '\U{1680}'
    || ('\U{2000}' <= c <= '\U{200A}')
    || c == '\U{2028}' || c == '\U{2029}' || c == '\U{202F}' || c == '\U{205F}' || c == '\U{3000}'
  }

  // ------------------------------------------------------ search: in, index

  /** `sub` occurs in `s` starting at position `k`. */
  predicate OccursAt(s: string, sub: string, k: int) {
    0 <= k && k + |sub| <= |s| && s[k..k + |sub|] == sub
  }

  /**
    The first position at which `sub` occurs in `s` (Python's `s.find(sub)`);
    `None` is the case in which `s.index(sub)` raises `ValueError`.
   */
  function IndexOf(s: string, sub: string): (r: Option<nat>)
    decreases |s|
  {
    if |s| < |sub| then None
    else if s[..|sub|] == sub then Some(0)
    else
      match IndexOf(s[1..], sub)
      case None => None
      case Some(i) => Some(i + 1)
  }

  /** Python's `sub in s`. */
  predicate Contains(s: string, sub: string) {
    IndexOf(s, sub).Some?
  }

  /** An occurrence in the tail of `s` is an occurrence in `s`, one position on. */
  lemma OccursShift(s: string, sub: string, j: int)
    requires s != [] && 0 <= j
    ensures OccursAt(s[1..], sub, j) <==> OccursAt(s, sub, j + 1)
  {
    if j + 1 + |sub| <= |s| {
      assert s[1..][j..j + |sub|] == s[j + 1..j + 1 + |sub|];
    }
  }

  /**
    `s.index(sub)` is an occurrence of `sub` with none before it, and it
    raises only when `sub` occurs nowhere in `s`.
   */
  lemma {:induction false} IndexOfFirst(s: string, sub: string)
    ensures IndexOf(s, sub).Some? ==> OccursAt(s, sub, IndexOf(s, sub).value)
    ensures IndexOf(s, sub).Some? ==> forall k :: 0 <= k < IndexOf(s, sub).value ==> !OccursAt(s, sub, k)
    ensures IndexOf(s, sub).None? ==> forall k :: !OccursAt(s, sub, k)
    decreases |s|
  {
    if |s| < |sub| {
      assert IndexOf(s, sub) == None;
    } else if s[..|sub|] == sub {
      assert IndexOf(s, sub) == Some(0);
    } else {
      var rest := IndexOf(s[1..], sub);
      IndexOfFirst(s[1..], sub);
      assert !OccursAt(s, sub, 0);
      forall j | 0 <= j
        ensures OccursAt(s[1..], sub, j) <==> OccursAt(s, sub, j + 1)
      {
        OccursShift(s, sub, j);
      }
      if rest.Some? {
        assert IndexOf(s, sub) == Some(rest.value + 1);
        forall k | 0 <= k < rest.value + 1 ensures !OccursAt(s, sub, k) {
          if k > 0 {
            assert !OccursAt(s[1..], sub, k - 1);
          }
        }
      } else {
        assert IndexOf(s, sub) == None;
        forall k ensures !OccursAt(s, sub, k) {
          if k > 0 {
            assert !OccursAt(s[1..], sub, k - 1);
          }
        }
      }
    }
  }

  /** What `s.index(sub)` returns leaves room for `sub` before the end of `s`. */
  lemma IndexOfInRange(s: string, sub: string)
    ensures IndexOf(s, sub).Some? ==> IndexOf(s, sub).value + |sub| <= |s|
  {
    IndexOfFirst(s, sub);
  }

  /** `sub in s` holds as soon as `sub` occurs somewhere in `s`. */
  lemma OccurrenceContains(s: string, sub: string, k: int)
    requires OccursAt(s, sub, k)
    ensures Contains(s, sub)
  {
    IndexOfFirst(s, sub);
  }

  /** A position where `sub` occurs with no earlier occurrence is what `s.index(sub)` returns. */
  lemma IndexOfIs(s: string, sub: string, i: nat)
    requires OccursAt(s, sub, i)
    requires forall k :: 0 <= k < i ==> !OccursAt(s, sub, k)
    ensures IndexOf(s, sub) == Some(i)
  {
    IndexOfFirst(s, sub);
  }

  /** A one-character string occurs exactly where that character stands. */
  lemma OccursChar(s: string, c: char, k: int)
    ensures OccursAt(s, [c], k) <==> 0 <= k < |s| && s[k] == c
  {
    if 0 <= k < |s| {
      assert s[k..k + 1] == [s[k]];
    }
  }

  /** `s.index(c)` for one character is the position of its first appearance. */
  lemma IndexOfChar(s: string, c: char, i: nat)
    requires i < |s| && s[i] == c
    requires forall k :: 0 <= k < i ==> s[k] != c
    ensures IndexOf(s, [c]) == Some(i)
  {
    OccursChar(s, c, i);
    forall k | 0 <= k < i ensures !OccursAt(s, [c], k) {
      OccursChar(s, c, k);
    }
    IndexOfIs(s, [c], i);
  }

  // ------------------------------------------------------------ split, join

  /** Python's `sep.join(parts)`, the inverse of `split`. */
  function Join(parts: seq<string>, sep: string): (r: string)
    decreases |parts|
  {
    if |parts| == 0 then ""
    else if |parts| == 1 then parts[0]
    else parts[0] + sep + Join(parts[1..], sep)
  }

  /**
    Python's `s.split(sep)` for a non-empty separator: the pieces between the
    leftmost non-overlapping occurrences of `sep`.
   */
  function Split(s: string, sep: string): (r: seq<string>)
    requires sep != []
    ensures |r| >= 1
    decreases |s|
  {
    match IndexOf(s, sep)
    case None => [s]
    case Some(i) =>
      IndexOfFirst(s, sep);
      [s[..i]] + Split(s[i + |sep|..], sep)
  }

  /**
    `split` cuts `s` at occurrences of `sep` and nowhere else: joining the
    pieces with `sep` gives `s` back, and no piece holds `sep`. An outline
    with k separators (counted left to right without overlap) thus gives
    k + 1 pieces, empty ones included.
   */
  lemma {:induction false} SplitJoin(s: string, sep: string)
    requires sep != []
    ensures Join(Split(s, sep), sep) == s
    ensures forall k :: 0 <= k < |Split(s, sep)| ==> !Contains(Split(s, sep)[k], sep)
    decreases |s|
  {
    IndexOfFirst(s, sep);
    var found := IndexOf(s, sep);
    if found.Some? {
      var i := found.value;
      var rest := s[i + |sep|..];
      var pieces := Split(rest, sep);
      assert Split(s, sep) == [s[..i]] + pieces;
      SplitJoin(rest, sep);
      assert s == s[..i] + sep + rest by {
        assert s[i..i + |sep|] == sep;
      }
      assert Join(Split(s, sep), sep) == s[..i] + sep + Join(pieces, sep);
      assert !Contains(s[..i], sep) by {
        IndexOfFirst(s[..i], sep);
        var h := IndexOf(s[..i], sep);
        if h.Some? {
          assert s[..i][h.value..h.value + |sep|] == s[h.value..h.value + |sep|];
          assert OccursAt(s, sep, h.value);
        }
      }
      forall k | 1 <= k < |Split(s, sep)| ensures !Contains(Split(s, sep)[k], sep) {
        assert Split(s, sep)[k] == pieces[k - 1];
      }
    } else {
      assert Split(s, sep) == [s];
    }
  }

  /** The first piece of `s.split(sep)` is `s` up to the first `sep`, or all of `s` when there is none. */
  lemma SplitFirst(s: string, sep: string)
    requires sep != []
    ensures match IndexOf(s, sep)
      case Some(i) => i <= |s| && Split(s, sep)[0] == s[..i] && |Split(s, sep)| > 1
      case None => Split(s, sep) == [s]
  {
    IndexOfFirst(s, sep);
  }

  // ------------------------------------------------------------------ strip

  /** Python's `s.lstrip()`: leading whitespace removed. */
  function LStrip(s: string): (r: string) {
    if s != [] && IsSpace(s[0]) then LStrip(s[1..]) else s
  }

  /** Python's `s.rstrip()`: trailing whitespace removed. */
  function RStrip(s: string): (r: string) {
    if s != [] && IsSpace(s[|s| - 1]) then RStrip(s[..|s| - 1]) else s
  }

  /** Python's `s.strip()`: whitespace removed at both ends. */
  function Strip(s: string): (r: string) {
    RStrip(LStrip(s))
  }

  /** `lstrip` removes a run of whitespace from the front and stops at the first other character. */
  lemma {:induction false} LStripRemovesSpace(s: string)
    ensures |LStrip(s)| <= |s| && LStrip(s) == s[|s| - |LStrip(s)|..]
    ensures forall k :: 0 <= k < |s| - |LStrip(s)| ==> IsSpace(s[k])
    ensures LStrip(s) == [] || !IsSpace(LStrip(s)[0])
  {
    if s != [] && IsSpace(s[0]) {
      var t := s[1..];
      LStripRemovesSpace(t);
      var m := |t| - |LStrip(t)|;
      assert LStrip(s) == LStrip(t);
      assert s[m + 1..] == t[m..];
      forall k | 0 <= k < m + 1 ensures IsSpace(s[k]) {
        if k > 0 {
          assert s[k] == t[k - 1];
        }
      }
    }
  }

  /** `rstrip` removes a run of whitespace from the back and stops at the last other character. */
  lemma {:induction false} RStripRemovesSpace(s: string)
    ensures |RStrip(s)| <= |s| && RStrip(s) == s[..|RStrip(s)|]
    ensures forall k :: |RStrip(s)| <= k < |s| ==> IsSpace(s[k])
    ensures RStrip(s) == [] || !IsSpace(RStrip(s)[|RStrip(s)| - 1])
  {
    if s != [] && IsSpace(s[|s| - 1]) {
      RStripRemovesSpace(s[..|s| - 1]);
    }
  }

  /** Where the stripped text begins in `s`. */
  function StripStart(s: string): (r: int) {
    |s| - |LStrip(s)|
  }

  /**
    `s.strip()` is the stretch of `s` that is left when the whitespace on both
    sides is taken off, and it neither starts nor ends with whitespace.
   */
  lemma StripTrims(s: string)
    ensures 0 <= StripStart(s) && StripStart(s) + |Strip(s)| <= |s|
    ensures Strip(s) == s[StripStart(s)..StripStart(s) + |Strip(s)|]
    ensures forall k :: 0 <= k < StripStart(s) ==> IsSpace(s[k])
    ensures forall k :: StripStart(s) + |Strip(s)| <= k < |s| ==> IsSpace(s[k])
    ensures Strip(s) == [] || (!IsSpace(Strip(s)[0]) && !IsSpace(Strip(s)[|Strip(s)| - 1]))
  {
    var l := LStrip(s);
    LStripRemovesSpace(s);
    RStripRemovesSpace(l);
    var i := |s| - |l|;
    var r := RStrip(l);
    assert r == s[i..i + |r|] by {
      assert l == s[i..];
      assert r == l[..|r|];
    }
    if r != [] {
      assert r[0] == l[0];
    }
    forall k | i + |r| <= k < |s|
      ensures IsSpace(s[k])
    {
      assert s[k] == l[k - i];
    }
  }

  /** `s.strip()` is empty exactly when every character of `s` is whitespace. */
  lemma StripEmptyIff(s: string)
    ensures Strip(s) == [] <==> forall k :: 0 <= k < |s| ==> IsSpace(s[k])
  {
    StripTrims(s);
    LStripRemovesSpace(s);
  }

  // ------------------------------------------------------------------ slice

  /**
    Python's `s[a:b]` for non-negative bounds: a bound past the end is taken
    as the end, and `b <= a` gives the empty string.
   */
  function Slice(s: string, a: nat, b: nat): (r: string) {
    var hi := if b < |s| then b else |s|;
    if hi <= a then "" else s[a..hi]
  }

  /** `s[a:b]` holds the characters from position `a` up to, not including, `b` or the end, whichever is first. */
  lemma SliceChars(s: string, a: nat, b: nat)
    ensures |Slice(s, a, b)| == if a < b && a < |s| then (if b < |s| then b else |s|) - a else 0
    ensures forall k :: 0 <= k < |Slice(s, a, b)| ==> Slice(s, a, b)[k] == s[a + k]
  {
  }

  /** Within bounds, `s[a:b]` is the stretch from `a` up to `b`, or empty when `b <= a`. */
  lemma SliceWithin(s: string, a: nat, b: nat)
    requires b <= |s|
    ensures b <= a ==> Slice(s, a, b) == ""
    ensures a < b ==> Slice(s, a, b) == s[a..b]
  {
  }
}
