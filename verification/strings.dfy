/** The Python string operations the scripts use: `startswith`, `split`,
    `join`, `strip`, `replace` and the code-point ordering `<` of `str`. */
module Strings {

  predicate StartsWith(s: string, prefix: string)
  {
    |prefix| <= |s| && s[..|prefix|] == prefix
  }

  predicate EndsWith(s: string, suffix: string)
  {
    |suffix| <= |s| && s[|s| - |suffix|..] == suffix
  }

  /** Position of the first `c` in `s`, or `|s|` when there is none. */
  function IndexOf(s: string, c: char): (i: nat)
    ensures i <= |s|
    ensures c !in s[..i]
    ensures i < |s| ==> s[i] == c
  {
    if s == [] then 0
    else if s[0] == c then 0
    else
      var k := IndexOf(s[1..], c);
      assert s[..k + 1] == [s[0]] + s[1..][..k];
      k + 1
  }

  /** `s.rfind(c)`: the last position of `c`, or -1. */
  function LastIndexOf(s: string, c: char): (i: int)
    ensures -1 <= i < |s|
    ensures i >= 0 ==> s[i] == c
    ensures forall k :: i < k < |s| ==> s[k] != c
  {
    if s == [] then -1
    else if s[|s| - 1] == c then |s| - 1
    else LastIndexOf(s[..|s| - 1], c)
  }

  /** Characters after the last `c` leave its position unchanged. */
  lemma {:induction false} LastIndexOfFree(a: string, b: string, c: char)
    requires c !in b
    ensures LastIndexOf(a + b, c) == LastIndexOf(a, c)
  {
    if b != [] {
      var s := a + b;
      assert s[..|s| - 1] == a + b[..|b| - 1];
      assert b[|b| - 1] in b;
      LastIndexOfFree(a, b[..|b| - 1], c);
    } else {
      assert a + b == a;
    }
  }

  /** `s.split(sep)` for a one-character separator: the pieces between separators. */
  function Split(s: string, sep: char): (parts: seq<string>)
    ensures |parts| >= 1
    decreases |s|
  {
    var i := IndexOf(s, sep);
    if i == |s| then [s] else [s[..i]] + Split(s[i + 1..], sep)
  }

  /** One step of `Split`: the piece before the first separator, then the
      pieces of what follows it. */
  lemma SplitCut(s: string, sep: char, i: nat, head: string, tail: string)
    requires i == IndexOf(s, sep) < |s| && head == s[..i] && tail == s[i + 1..]
    ensures Split(s, sep) == [head] + Split(tail, sep)
  {
  }

  /** `sep.join(parts)` for a one-character separator. */
  function Join(parts: seq<string>, sep: char): string
  {
    if parts == [] then ""
    else if |parts| == 1 then parts[0]
    else parts[0] + [sep] + Join(parts[1..], sep)
  }

  /** Splitting a join of separator-free pieces gives back the pieces. */
  lemma {:induction false} SplitJoin(parts: seq<string>, sep: char)
    requires parts != []
    requires forall k :: 0 <= k < |parts| ==> sep !in parts[k]
    ensures Split(Join(parts, sep), sep) == parts
  {
    if |parts| == 1 {
      SplitNoSeparator(parts[0], sep);
    } else {
      var head, tail := parts[0], Join(parts[1..], sep);
      var s := head + [sep] + tail;
      IndexOfAfterFree(head, sep, tail);
      assert s[..|head|] == head;
      assert s[|head| + 1..] == tail;
      SplitJoin(parts[1..], sep);
      assert [parts[0]] + parts[1..] == parts;
    }
  }

  lemma {:induction false} IndexOfAfterFree(head: string, c: char, tail: string)
    requires c !in head
    ensures IndexOf(head + [c] + tail, c) == |head|
  {
    if head != [] {
      var s := head + [c] + tail;
      assert s[1..] == head[1..] + [c] + tail;
      IndexOfAfterFree(head[1..], c, tail);
    }
  }

  lemma SplitNoSeparator(s: string, sep: char)
    requires sep !in s
    ensures Split(s, sep) == [s]
  {
    assert s[..|s|] == s;
  }

  /** Appending a separator and a separator-free piece appends one piece. */
  lemma {:induction false} SplitSnoc(a: string, sep: char, b: string)
    requires sep !in b
    ensures Split(a + [sep] + b, sep) == Split(a, sep) + [b]
    decreases |a|
  {
    var i := IndexOf(a, sep);
    if i == |a| {
      SplitSnocFree(a, sep, b);
    } else {
      var rest := a[i + 1..];
      SplitAfterFirst(a, sep, i, b);
      SplitSnoc(rest, sep, b);
    }
  }

  /** The last piece when `a` itself holds no separator. */
  lemma SplitSnocFree(a: string, sep: char, b: string)
    requires sep !in b && IndexOf(a, sep) == |a|
    ensures Split(a + [sep] + b, sep) == Split(a, sep) + [b]
  {
    var s := a + [sep] + b;
    IndexOfAfterFree(a, sep, b);
    SplitCut(s, sep, |a|, a, b);
    SplitNoSeparator(b, sep);
    SplitNoSeparator(a, sep);
  }

  /** When `a` holds a separator at `i`, text appended to `a` only extends
      the pieces after the first. */
  lemma SplitAfterFirst(a: string, sep: char, i: nat, b: string)
    requires i == IndexOf(a, sep) < |a|
    ensures Split(a, sep) == [a[..i]] + Split(a[i + 1..], sep)
    ensures Split(a + [sep] + b, sep) == [a[..i]] + Split(a[i + 1..] + [sep] + b, sep)
  {
    var t := [sep] + b;
    var s := a + t;
    IndexOfExtend(a, sep, t);
    assert s[..i] == a[..i];
    assert s[i + 1..] == a[i + 1..] + [sep] + b;
    SplitCut(s, sep, i, a[..i], a[i + 1..] + [sep] + b);
    assert a + [sep] + b == s;
  }

  lemma {:induction false} IndexOfExtend(a: string, c: char, t: string)
    requires IndexOf(a, c) < |a|
    ensures IndexOf(a + t, c) == IndexOf(a, c)
  {
    if a[0] != c {
      assert (a + t)[1..] == a[1..] + t;
      IndexOfExtend(a[1..], c, t);
    }
  }

  /** With the last separator at `p`, the last piece is the text after it. */
  lemma SplitLast(s: string, sep: char, p: nat)
    requires p < |s| && s[p] == sep
    requires forall k :: p < k < |s| ==> s[k] != sep
    ensures Split(s, sep)[|Split(s, sep)| - 1] == s[p + 1..]
  {
    var head, tail := s[..p], s[p + 1..];
    NothingAfter(s, sep, p);
    assert s == head + [sep] + tail;
    SplitSnoc(head, sep, tail);
    var parts := Split(head, sep);
    assert (parts + [tail])[|parts|] == tail;
  }

  lemma NothingAfter(s: string, sep: char, p: nat)
    requires p < |s| && forall k :: p < k < |s| ==> s[k] != sep
    ensures sep !in s[p + 1..]
  {
    var rest := s[p + 1..];
    forall k | 0 <= k < |rest| ensures rest[k] != sep {
      assert rest[k] == s[p + 1 + k];
    }
  }

  /** Python's `str.isspace` characters: the ones `strip()` removes. */
  predicate IsSpace(c: char)
  {
    c == ' ' || '\t' <= c <= '\r' || '\U{1c}' <= c <= '\U{1f}' ||
    c == '\U{85}' || c == '\U{a0}' || c == '\U{1680}' ||
    '\U{2000}' <= c <= '\U{200a}' || c == '\U{2028}' || c == '\U{2029}' ||
    c == '\U{202f}' || c == '\U{205f}' || c == '\U{3000}'
  }

  predicate AllSpace(s: string)
  {
    forall k :: 0 <= k < |s| ==> IsSpace(s[k])
  }

  /** `s.lstrip()`: the suffix left after removing leading whitespace. */
  function TrimStart(s: string): string
  {
    if s != [] && IsSpace(s[0]) then TrimStart(s[1..]) else s
  }

  /** `s.rstrip()`: the prefix left after removing trailing whitespace. */
  function TrimEnd(s: string): string
  {
    if s != [] && IsSpace(s[|s| - 1]) then TrimEnd(s[..|s| - 1]) else s
  }

  /** `s.strip()`. */
  function Strip(s: string): string
  {
    TrimEnd(TrimStart(s))
  }

  /** `r` is a suffix of `s` after only whitespace, and does not start with whitespace. */
  ghost predicate TrimmedFront(s: string, r: string)
  {
    |r| <= |s| && r == s[|s| - |r|..] && AllSpace(s[..|s| - |r|]) &&
    (r == [] || !IsSpace(r[0]))
  }

  /** `r` is a prefix of `s` before only whitespace, and does not end with whitespace. */
  ghost predicate TrimmedBack(s: string, r: string)
  {
    |r| <= |s| && r == s[..|r|] && AllSpace(s[|r|..]) &&
    (r == [] || !IsSpace(r[|r| - 1]))
  }

  /** `lstrip` removes exactly the leading whitespace. */
  lemma {:induction false} TrimStartShape(s: string)
    ensures TrimmedFront(s, TrimStart(s))
  {
    if s != [] && IsSpace(s[0]) {
      var t := s[1..];
      var r := TrimStart(t);
      TrimStartShape(t);
      var cut := |t| - |r|;
      assert t[cut..] == s[cut + 1..];
      assert s[..cut + 1] == [s[0]] + t[..cut];
    } else {
      assert s[..0] == [];
    }
  }

  /** `rstrip` removes exactly the trailing whitespace. */
  lemma {:induction false} TrimEndShape(s: string)
    ensures TrimmedBack(s, TrimEnd(s))
  {
    if s != [] && IsSpace(s[|s| - 1]) {
      var t := s[..|s| - 1];
      var r := TrimEnd(t);
      TrimEndShape(t);
      assert t[..|r|] == s[..|r|];
      assert s[|r|..] == t[|r|..] + [s[|s| - 1]];
    } else {
      assert s[|s|..] == [];
    }
  }

  /** `r` is the slice `s[lo..lo + |r|]`, with only whitespace around it and
      no whitespace at either of its ends. */
  ghost predicate TrimmedSlice(s: string, lo: int, r: string)
  {
    0 <= lo && lo + |r| <= |s| && r == s[lo..lo + |r|] &&
    AllSpace(s[..lo]) && AllSpace(s[lo + |r|..]) &&
    (r == [] || (!IsSpace(r[0]) && !IsSpace(r[|r| - 1])))
  }

  /** What `strip()` returns is a slice of its input that neither starts nor
      ends with whitespace, and only whitespace was cut off on either side. */
  lemma StripShape(s: string)
    ensures TrimmedSlice(s, |s| - |TrimStart(s)|, Strip(s))
  {
    var t := TrimStart(s);
    var r := TrimEnd(t);
    TrimStartShape(s);
    TrimEndShape(t);
    TrimEndInside(s, |s| - |t|, t, r);
  }

  /** The `rstrip` step of `StripShape`, over a suffix `t` of `s`. */
  lemma TrimEndInside(s: string, lo: nat, t: string, r: string)
    requires lo <= |s| && t == s[lo..] && AllSpace(s[..lo]) && (t == [] || !IsSpace(t[0]))
    requires TrimmedBack(t, r)
    ensures TrimmedSlice(s, lo, r)
  {
    assert s[lo + |r|..] == t[|r|..];
    if r != [] {
      assert r[0] == t[0];
    }
  }

  /** `s.replace(from, to)` for single characters. */
  function ReplaceChar(s: string, from: char, to: char): (r: string)
    ensures |r| == |s|
    ensures from != to ==> from !in r
    ensures forall k :: 0 <= k < |s| && s[k] != from ==> r[k] == s[k]
    ensures forall k :: 0 <= k < |s| && s[k] == from ==> r[k] == to
  {
    seq(|s|, k requires 0 <= k < |s| => if s[k] == from then to else s[k])
  }

  /** Replacing back undoes a replacement when the new character did not
      occur in the text. */
  lemma ReplaceCharInverse(s: string, from: char, to: char)
    requires to !in s
    ensures ReplaceChar(ReplaceChar(s, from, to), to, from) == s
  {
    var r := ReplaceChar(s, from, to);
    forall k | 0 <= k < |s| ensures ReplaceChar(r, to, from)[k] == s[k] {
      assert s[k] != to by {
        assert s[k] in s;
      }
    }
  }

  /** Python's `a <= b` on `str`: code-point lexicographic order, a proper
      prefix coming first. */
  predicate LexLeq(a: string, b: string)
  {
    a == [] || (b != [] && (a[0] < b[0] || (a[0] == b[0] && LexLeq(a[1..], b[1..]))))
  }

  predicate LexLess(a: string, b: string)
  {
    LexLeq(a, b) && a != b
  }

  lemma {:induction false} LexLeqTotal(a: string, b: string)
    ensures LexLeq(a, b) || LexLeq(b, a)
  {
    if a != [] && b != [] && a[0] == b[0] {
      LexLeqTotal(a[1..], b[1..]);
    }
  }

  lemma {:induction false} LexLeqAntisymmetric(a: string, b: string)
    requires LexLeq(a, b) && LexLeq(b, a)
    ensures a == b
  {
    if a != [] && b != [] {
      LexLeqAntisymmetric(a[1..], b[1..]);
      assert a == [a[0]] + a[1..];
      assert b == [b[0]] + b[1..];
    }
  }

  lemma {:induction false} LexLeqTransitive(a: string, b: string, c: string)
    requires LexLeq(a, b) && LexLeq(b, c)
    ensures LexLeq(a, c)
  {
    if a != [] && b != [] && c != [] && a[0] == b[0] && b[0] == c[0] {
      LexLeqTransitive(a[1..], b[1..], c[1..]);
    }
  }

  lemma {:induction false} LexLeqReflexive(a: string)
    ensures LexLeq(a, a)
  {
    if a != [] {
      LexLeqReflexive(a[1..]);
    }
  }
}
