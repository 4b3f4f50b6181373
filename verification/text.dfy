/** Python `str` operations the pipeline relies on, over Unicode strings
    (`string` is a sequence of Unicode scalar values, as a Python `str` is a
    sequence of code points). */
module Text {
  import opened Effects

  /** The characters Python's `str.isspace()` accepts, i.e. those that a
      bare `str.strip()` removes: U+0009..U+000D, U+001C..U+0020, U+0085,
      U+00A0, U+1680, U+2000..U+200A, U+2028, U+2029, U+202F, U+205F, U+3000. */
  const Whitespace: set<char> :=
    {'\t', '\n', '\U{b}', '\U{c}', '\r', '\U{1c}', '\U{1d}', '\U{1e}', '\U{1f}', ' ',
     '\U{85}', '\U{a0}', '\U{1680}',
     '\U{2000}', '\U{2001}', '\U{2002}', '\U{2003}', '\U{2004}', '\U{2005}',
     '\U{2006}', '\U{2007}', '\U{2008}', '\U{2009}', '\U{200a}',
     '\U{2028}', '\U{2029}', '\U{202f}', '\U{205f}', '\U{3000}'}

  predicate IsSpace(c: char) {
    c in Whitespace
  }

  predicate AllSpace(s: string) {
    forall i :: 0 <= i < |s| ==> IsSpace(s[i])
  }

  /** `s.lstrip()` */
  function TrimStart(s: string): (r: string)
    ensures |r| <= |s| && r == s[|s| - |r|..]
    ensures r == [] || !IsSpace(r[0])
  {
    if |s| > 0 && IsSpace(s[0]) then TrimStart(s[1..]) else s
  }

  /** `s.rstrip()` */
  function TrimEnd(s: string): (r: string)
    ensures |r| <= |s| && r == s[..|r|]
    ensures r == [] || !IsSpace(r[|r| - 1])
  {
    if |s| > 0 && IsSpace(s[|s| - 1]) then TrimEnd(s[..|s| - 1]) else s
  }

  /** `s.strip()`: `s` without its leading and trailing whitespace. It is
      empty exactly when `s` is all whitespace; otherwise it starts and ends
      with a non-whitespace character (`StripSurrounded` shows it is the
      unique such infix). */
  function Strip(s: string): (r: string)
    ensures |r| <= |s|
    ensures r == [] <==> AllSpace(s)
    ensures r == [] || (!IsSpace(r[0]) && !IsSpace(r[|r| - 1]))
  {
    TrimStartEmpty(s);
    TrimEndEmpty(TrimStart(s));
    TrimEnd(TrimStart(s))
  }

  lemma {:induction false} TrimStartEmpty(s: string)
    ensures TrimStart(s) == [] <==> AllSpace(s)
    decreases |s|
  {
    if |s| > 0 && IsSpace(s[0]) {
      var t := s[1..];
      assert TrimStart(s) == TrimStart(t);
      TrimStartEmpty(t);
      if AllSpace(t) {
        forall i | 0 <= i < |s| ensures IsSpace(s[i]) {
          if i > 0 { assert s[i] == t[i - 1]; }
        }
      }
      if AllSpace(s) {
        forall i | 0 <= i < |t| ensures IsSpace(t[i]) {
          assert t[i] == s[i + 1];
        }
      }
      assert AllSpace(s) <==> AllSpace(t);
    }
  }

  lemma {:induction false} TrimEndEmpty(s: string)
    ensures TrimEnd(s) == [] <==> AllSpace(s)
    decreases |s|
  {
    if |s| > 0 && IsSpace(s[|s| - 1]) {
      var p := s[..|s| - 1];
      TrimEndEmpty(p);
      assert AllSpace(s) <==> AllSpace(p) by {
        if AllSpace(p) {
          forall i | 0 <= i < |s| ensures IsSpace(s[i]) {
            if i < |s| - 1 { assert s[i] == p[i]; }
          }
        }
      }
    }
  }

  /** Stripping twice is stripping once. */
  lemma StripIdempotent(s: string)
    ensures Strip(Strip(s)) == Strip(s)
  {
    var r := Strip(s);
    if r != [] {
      assert TrimStart(r) == r;
      assert TrimEnd(r) == r;
    }
  }

  /** Whitespace around a string does not change what `strip()` yields. */
  lemma {:induction false} StripSurrounded(a: string, s: string, b: string)
    requires AllSpace(a) && AllSpace(b)
    requires s == [] || (!IsSpace(s[0]) && !IsSpace(s[|s| - 1]))
    ensures Strip(a + s + b) == s
  {
    var t := s + b;
    assert a + s + b == a + t;
    TrimStartSkips(a, t);
    StripTrailing(s, b);
  }

  /** Trimming a string with non-space ends and trailing whitespace leaves
      the string. */
  lemma StripTrailing(s: string, b: string)
    requires AllSpace(b)
    requires s == [] || (!IsSpace(s[0]) && !IsSpace(s[|s| - 1]))
    ensures TrimEnd(TrimStart(s + b)) == s
  {
    if s == [] {
      assert s + b == b;
      TrimStartEmpty(b);
    } else {
      assert (s + b)[0] == s[0];
      assert TrimStart(s + b) == s + b;
      TrimEndSkips(s, b);
    }
  }

  lemma {:induction false} TrimStartSkips(a: string, t: string)
    requires AllSpace(a)
    ensures TrimStart(a + t) == TrimStart(t)
    decreases |a|
  {
    if |a| > 0 {
      assert (a + t)[1..] == a[1..] + t;
      TrimStartSkips(a[1..], t);
    } else {
      assert a + t == t;
    }
  }

  lemma {:induction false} TrimEndSkips(s: string, b: string)
    requires s != [] && !IsSpace(s[|s| - 1])
    requires AllSpace(b)
    ensures TrimEnd(s + b) == s
    decreases |b|
  {
    if |b| > 0 {
      assert (s + b)[..|s + b| - 1] == s + b[..|b| - 1];
      TrimEndSkips(s, b[..|b| - 1]);
    } else {
      assert s + b == s;
    }
  }

  /** `pat` appears in `s` starting at index `i`. */
  predicate OccursAt(s: string, pat: string, i: int) {
    0 <= i && i + |pat| <= |s| && s[i..i + |pat|] == pat
  }

  /** The first index at or after `from` where `pat` occurs (`s.find(pat, from)`). */
  function IndexFrom(s: string, pat: string, from: nat): (r: Option<nat>)
    ensures r.Some? ==> from <= r.value && OccursAt(s, pat, r.value)
    ensures r.Some? ==> forall j :: from <= j < r.value ==> !OccursAt(s, pat, j)
    ensures r.None? ==> forall j :: from <= j ==> !OccursAt(s, pat, j)
    decreases |s| - from
  {
    if from + |pat| > |s| then None
    else if s[from..from + |pat|] == pat then Some(from)
    else IndexFrom(s, pat, from + 1)
  }

  /** `s.find(pat)`, with `None` for Python's -1. */
  function IndexOf(s: string, pat: string): (r: Option<nat>)
    ensures r.Some? ==> OccursAt(s, pat, r.value) && forall j :: 0 <= j < r.value ==> !OccursAt(s, pat, j)
    ensures r.None? <==> forall j :: !OccursAt(s, pat, j)
  {
    IndexFrom(s, pat, 0)
  }

  /** Python's `pat in s`. */
  predicate Contains(s: string, pat: string) {
    IndexOf(s, pat).Some?
  }

  /** A string lacking some character of `pat` does not contain `pat`. */
  lemma LacksChar(s: string, pat: string, c: char)
    requires c in pat && c !in s
    ensures !Contains(s, pat)
  {
    var k :| 0 <= k < |pat| && pat[k] == c;
    forall j
      ensures !OccursAt(s, pat, j)
    {
      if 0 <= j && j + |pat| <= |s| {
        assert s[j..j + |pat|][k] == s[j + k] != c;
      }
    }
  }

  /** An occurrence of `pat` inside `b` is an occurrence inside `a + b + c`. */
  lemma ContainsInfix(a: string, b: string, c: string, pat: string)
    requires Contains(b, pat)
    ensures Contains(a + b + c, pat)
  {
    var i := IndexOf(b, pat).value;
    var s := a + b + c;
    assert s[|a| + i..|a| + i + |pat|] == b[i..i + |pat|];
    assert OccursAt(s, pat, |a| + i);
  }

  /** A string containing `pat + tail` contains `pat`. */
  lemma ContainsPrefixOfPattern(s: string, pat: string, tail: string)
    requires Contains(s, pat + tail)
    ensures Contains(s, pat)
  {
    var i := IndexOf(s, pat + tail).value;
    assert s[i..i + |pat|] == (pat + tail)[..|pat|];
    assert OccursAt(s, pat, i);
  }

  /** `s.split(sep)`: the pieces between successive non-overlapping
      occurrences of `sep`, scanned left to right. */
  function Split(s: string, sep: string): (parts: seq<string>)
    requires sep != []
    ensures |parts| >= 1
    ensures |parts| == 1 <==> !Contains(s, sep)
    ensures forall i :: 0 <= i < |parts| ==> !Contains(parts[i], sep)
    decreases |s|
  {
    match IndexOf(s, sep)
    case None => [s]
    case Some(i) =>
      NoEarlierOccurrence(s, sep, i);
      [s[..i]] + Split(s[i + |sep|..], sep)
  }

  lemma NoEarlierOccurrence(s: string, sep: string, i: nat)
    requires sep != [] && IndexOf(s, sep) == Some(i)
    ensures !Contains(s[..i], sep)
  {
    forall j
      ensures !OccursAt(s[..i], sep, j)
    {
      if 0 <= j && j + |sep| <= i {
        assert s[..i][j..j + |sep|] == s[j..j + |sep|];
        assert !OccursAt(s, sep, j);
      }
    }
  }

  /** `sep.join(parts)` */
  function Join(sep: string, parts: seq<string>): string {
    if |parts| == 0 then ""
    else if |parts| == 1 then parts[0]
    else parts[0] + sep + Join(sep, parts[1..])
  }

  /** `sep.join(parts)` opens with the first part. */
  lemma JoinStartsWithFirstPart(sep: string, parts: seq<string>)
    requires |parts| > 0
    ensures |Join(sep, parts)| >= |parts[0]| && Join(sep, parts)[..|parts[0]|] == parts[0]
    ensures parts[0] != [] ==> Join(sep, parts)[0] == parts[0][0]
  {
    if parts[0] != [] {
      assert Join(sep, parts)[..|parts[0]|][0] == parts[0][0];
    }
  }

  /** Splitting and re-joining with the same separator gives back the string. */
  lemma {:induction false} SplitJoin(s: string, sep: string)
    requires sep != []
    ensures Join(sep, Split(s, sep)) == s
    decreases |s|
  {
    match IndexOf(s, sep)
    case None =>
    case Some(i) =>
      SplitJoin(s[i + |sep|..], sep);
      SplitJoinStep(s, sep, i);
  }

  /** One step of `Split`: the piece before the first separator, then the
      split of what follows it. */
  lemma SplitUnfold(s: string, sep: string, i: nat)
    requires sep != [] && IndexOf(s, sep) == Some(i)
    ensures Split(s, sep) == [s[..i]] + Split(s[i + |sep|..], sep)
  {
  }

  lemma SplitJoinStep(s: string, sep: string, i: nat)
    requires sep != [] && IndexOf(s, sep) == Some(i)
    requires Join(sep, Split(s[i + |sep|..], sep)) == s[i + |sep|..]
    ensures Join(sep, Split(s, sep)) == s
  {
    var rest := s[i + |sep|..];
    var tail := Split(rest, sep);
    SplitUnfold(s, sep, i);
    JoinCons(sep, s[..i], tail);
    assert Join(sep, Split(s, sep)) == s[..i] + sep + rest;
    assert s[i..i + |sep|] == sep;
    Reassemble(s, i, |sep|);
  }

  lemma JoinCons(sep: string, head: string, tail: seq<string>)
    requires |tail| > 0
    ensures Join(sep, [head] + tail) == head + sep + Join(sep, tail)
  {
    assert ([head] + tail)[1..] == tail;
  }

  lemma Reassemble(s: string, i: nat, n: nat)
    requires i + n <= |s|
    ensures s == s[..i] + s[i..i + n] + s[i + n..]
  {
  }

  /** The second field of `s.split(sep)` is the text between the first
      occurrence of `sep` and the next one (or the end of `s`). */
  lemma SplitSecondField(s: string, sep: string, i: nat)
    requires sep != [] && IndexOf(s, sep) == Some(i)
    ensures |Split(s, sep)| >= 2
    ensures var rest := s[i + |sep|..];
            Split(s, sep)[1] == match IndexOf(rest, sep)
                                case None => rest
                                case Some(j) => rest[..j]
  {
    var rest := s[i + |sep|..];
    var tail := Split(rest, sep);
    SplitUnfold(s, sep, i);
    match IndexOf(rest, sep)
    case None =>
      assert tail == [rest];
    case Some(j) =>
      SplitUnfold(rest, sep, j);
  }

  /** A character in neither the separator nor any part is not in the join. */
  lemma {:induction false} JoinAvoids(sep: string, parts: seq<string>, c: char)
    requires c !in sep && forall k :: 0 <= k < |parts| ==> c !in parts[k]
    ensures c !in Join(sep, parts)
    decreases |parts|
  {
    if |parts| > 1 {
      JoinAvoids(sep, parts[1..], c);
      assert Join(sep, parts) == parts[0] + sep + Join(sep, parts[1..]);
    }
  }

  /** Every part occurs in `sep.join(parts)`. */
  lemma {:induction false} JoinContainsParts(sep: string, parts: seq<string>, i: nat)
    requires i < |parts|
    ensures Contains(Join(sep, parts), parts[i])
    decreases |parts|
  {
    if |parts| == 1 {
      assert OccursAt(parts[0], parts[0], 0);
    } else if i == 0 {
      var s := Join(sep, parts);
      assert s[..|parts[0]|] == parts[0];
      assert OccursAt(s, parts[0], 0);
    } else {
      JoinContainsParts(sep, parts[1..], i - 1);
      ContainsInfix(parts[0] + sep, Join(sep, parts[1..]), "", parts[i]);
      assert parts[0] + sep + Join(sep, parts[1..]) + "" == Join(sep, parts);
    }
  }

  /** `s.replace(c, '')` for a one-character `c`. */
  function RemoveAll(s: string, c: char): (r: string)
    ensures c !in r
    ensures |r| <= |s|
    ensures c !in s ==> r == s
    ensures forall x :: x != c ==> (x in r <==> x in s)
  {
    if |s| == 0 then ""
    else if s[0] == c then RemoveAll(s[1..], c)
    else [s[0]] + RemoveAll(s[1..], c)
  }

  /** Removal works piecewise on a concatenation. */
  lemma {:induction false} RemoveAllConcat(a: string, b: string, c: char)
    ensures RemoveAll(a + b, c) == RemoveAll(a, c) + RemoveAll(b, c)
    decreases |a|
  {
    if |a| == 0 {
      assert a + b == b;
    } else {
      assert (a + b)[1..] == a[1..] + b;
      RemoveAllConcat(a[1..], b, c);
    }
  }

  predicate NoDuplicates(xs: seq<string>) {
    forall i, j :: 0 <= i < j < |xs| ==> xs[i] != xs[j]
  }

  /** `list(set(xs))` with the order fixed to first occurrence: each element
      of `xs` exactly once. */
  function Dedupe(xs: seq<string>): (r: seq<string>)
    ensures NoDuplicates(r)
    ensures forall x :: x in r <==> x in xs
    ensures |r| <= |xs|
    ensures |xs| > 0 ==> |r| > 0
  {
    if |xs| == 0 then []
    else
      var d := Dedupe(xs[..|xs| - 1]);
      assert forall x :: x in xs <==> x in xs[..|xs| - 1] || x == xs[|xs| - 1];
      if xs[|xs| - 1] in d then d else d + [xs[|xs| - 1]]
  }
}
