/** The string primitives the services rely on, with Python's semantics:
    `str.isspace`, `str.split(sep)` with an explicit separator, and
    `str.strip()`. */
module Text {

  /** `str.isspace`: the characters Python counts as whitespace (also the
      characters the regular-expression class `\s` matches). */
  predicate IsSpace(c: char)
  {
    || ('\t' <= c <= '\r')
    || ('\U{1c}' <= c <= ' ')
    || c == '\U{85}' || c == '\U{a0}' || c == '\U{1680}'
    || ('\U{2000}' <= c <= '\U{200a}')
    || c == '\U{2028}' || c == '\U{2029}' || c == '\U{202f}' || c == '\U{205f}' || c == '\U{3000}'
  }

  predicate AllSpace(s: string)
  {
    forall i :: 0 <= i < |s| ==> IsSpace(s[i])
  }

  /** The pieces joined back with the separator between them. */
  function Join(parts: seq<string>, sep: char): string
  {
    if parts == [] then ""
    else if |parts| == 1 then parts[0]
    else parts[0] + [sep] + Join(parts[1..], sep)
  }

  /** `s.split(sep)`: the maximal separator-free pieces between separators,
      always at least one (an empty string splits into one empty piece). */
  function Split(s: string, sep: char): (r: seq<string>)
    ensures |r| >= 1
    ensures forall i :: 0 <= i < |r| ==> sep !in r[i]
    decreases |s|
  {
    if s == [] then [""]
    else
      var rest := Split(s[1..], sep);
      if s[0] == sep then [""] + rest
      else [[s[0]] + rest[0]] + rest[1..]
  }

  /** Joining the pieces gives the original string back. */
  lemma {:induction false} JoinSplit(s: string, sep: char)
    ensures Join(Split(s, sep), sep) == s
    decreases |s|
  {
    if s != [] {
      var rest := Split(s[1..], sep);
      JoinSplit(s[1..], sep);
      if s[0] == sep {
        assert Split(s, sep) == [""] + rest;
        assert s == [s[0]] + s[1..];
      } else {
        var r := Split(s, sep);
        assert r == [[s[0]] + rest[0]] + rest[1..];
        if |rest| == 1 {
          assert s == [s[0]] + rest[0];
        } else {
          assert r[1..] == rest[1..];
          assert Join(rest, sep) == rest[0] + [sep] + Join(rest[1..], sep);
          assert s == [s[0]] + s[1..];
        }
      }
    }
  }

  /** Splitting separator-free pieces joined by the separator gives the
      pieces back, so `Split` and `Join` are inverse to each other. */
  lemma {:induction false} SplitJoin(parts: seq<string>, sep: char)
    requires |parts| >= 1
    requires forall i :: 0 <= i < |parts| ==> sep !in parts[i]
    ensures Split(Join(parts, sep), sep) == parts
    decreases |parts|, |parts[0]|
  {
    if |parts| == 1 {
      SplitNoSeparator(parts[0], sep);
    } else if parts[0] == "" {
      var tail := parts[1..];
      SplitJoin(tail, sep);
      assert Join(parts, sep) == [sep] + Join(tail, sep);
      assert ([sep] + Join(tail, sep))[1..] == Join(tail, sep);
      assert parts == [""] + tail;
    } else {
      var c := parts[0][0];
      var shorter := parts[0 := parts[0][1..]];
      assert c != sep by { assert c in parts[0]; }
      assert forall i :: 0 <= i < |shorter| ==> sep !in shorter[i] by {
        forall i | 0 <= i < |shorter| ensures sep !in shorter[i] {
          if i == 0 {
            assert forall x :: x in parts[0][1..] ==> x in parts[0];
          } else {
            assert shorter[i] == parts[i];
          }
        }
      }
      SplitJoin(shorter, sep);
      assert shorter[1..] == parts[1..];
      var s := Join(parts, sep);
      assert s == parts[0] + [sep] + Join(parts[1..], sep);
      assert s[1..] == Join(shorter, sep);
      assert parts[0] == [c] + shorter[0];
    }
  }

  lemma {:induction false} SplitNoSeparator(s: string, sep: char)
    requires sep !in s
    ensures Split(s, sep) == [s]
    decreases |s|
  {
    if s != [] {
      SplitNoSeparator(s[1..], sep);
      assert s == [s[0]] + s[1..];
    }
  }

  /** The index of the first non-whitespace character at or after `k`
      (`|s|` when there is none). */
  function LeadingEnd(s: string, k: nat): (n: nat)
    requires k <= |s|
    ensures k <= n <= |s|
    ensures forall m :: k <= m < n ==> IsSpace(s[m])
    ensures n == |s| || !IsSpace(s[n])
    decreases |s| - k
  {
    if k < |s| && IsSpace(s[k]) then LeadingEnd(s, k + 1) else k
  }

  /** One past the last non-whitespace character before `k` (0 when there
      is none). */
  function TrailingStart(s: string, k: nat): (n: nat)
    requires k <= |s|
    ensures n <= k
    ensures forall m :: n <= m < k ==> IsSpace(s[m])
    ensures n == 0 || !IsSpace(s[n - 1])
  {
    if k > 0 && IsSpace(s[k - 1]) then TrailingStart(s, k - 1) else k
  }

  /** `str.lstrip()`: drop the leading whitespace. */
  function StripLeft(s: string): (r: string)
    ensures |r| <= |s| && r == s[|s| - |r|..]
    ensures AllSpace(s[..|s| - |r|])
    ensures r == [] || !IsSpace(r[0])
  {
    var n := LeadingEnd(s, 0);
    assert forall i :: 0 <= i < n ==> s[..n][i] == s[i];
    s[n..]
  }

  /** `str.rstrip()`: drop the trailing whitespace. */
  function StripRight(s: string): (r: string)
    ensures |r| <= |s| && r == s[..|r|]
    ensures AllSpace(s[|r|..])
    ensures r == [] || !IsSpace(r[|r| - 1])
  {
    var n := TrailingStart(s, |s|);
    assert forall i :: 0 <= i < |s| - n ==> s[n..][i] == s[n + i];
    s[..n]
  }

  /** `str.strip()`: the string without its leading and trailing
      whitespace; what is removed is whitespace only. */
  function Strip(s: string): (r: string)
    ensures r == [] || (!IsSpace(r[0]) && !IsSpace(r[|r| - 1]))
    ensures var i := |s| - |StripLeft(s)|;
      i + |r| <= |s| && r == s[i..i + |r|] && AllSpace(s[..i]) && AllSpace(s[i + |r|..])
  {
    var left := StripLeft(s);
    var r := StripRight(left);
    MiddleSlice(s, left, r);
    TrimmedEnds(left, r);
    r
  }

  /** Cutting the trailing whitespace off a string that does not start with
      whitespace leaves a string that neither starts nor ends with it. */
  lemma TrimmedEnds(left: string, r: string)
    requires left == [] || !IsSpace(left[0])
    requires |r| <= |left| && r == left[..|r|]
    requires r == [] || !IsSpace(r[|r| - 1])
    ensures r == [] || (!IsSpace(r[0]) && !IsSpace(r[|r| - 1]))
  {
    if r != [] {
      assert r[0] == left[0];
    }
  }

  /** Whitespace removed from the front and then from the back leaves a
      middle slice. */
  lemma MiddleSlice(s: string, left: string, r: string)
    requires |left| <= |s| && left == s[|s| - |left|..] && AllSpace(s[..|s| - |left|])
    requires |r| <= |left| && r == left[..|r|] && AllSpace(left[|r|..])
    ensures var i := |s| - |left|;
      i + |r| <= |s| && r == s[i..i + |r|] && AllSpace(s[..i]) && AllSpace(s[i + |r|..])
  {
    var i := |s| - |left|;
    assert r == s[i..i + |r|];
    assert s[i + |r|..] == left[|r|..];
  }

  /** Stripping twice is stripping once. */
  lemma StripIdempotent(s: string)
    ensures Strip(Strip(s)) == Strip(s)
  {
    var r := Strip(s);
    StripAfterSpaces([], r);
    assert [] + r == r;
  }

  /** Neither starting nor ending with whitespace. */
  predicate Trimmed(s: string)
  {
    s == [] || (!IsSpace(s[0]) && !IsSpace(s[|s| - 1]))
  }

  /** Leading whitespace is all `lstrip` removes. */
  lemma StripLeftSpaces(p: string, s: string)
    requires AllSpace(p) && (s == [] || !IsSpace(s[0]))
    ensures StripLeft(p + s) == s
  {
    var x := p + s;
    var n := LeadingEnd(x, 0);
    assert forall m :: 0 <= m < |p| ==> x[m] == p[m];
    assert |p| < |x| ==> x[|p|] == s[0];
    assert n == |p|;
    assert x[|p|..] == s;
  }

  /** A string that does not end in whitespace keeps its end. */
  lemma StripRightTrimmed(s: string)
    requires Trimmed(s)
    ensures StripRight(s) == s
  {
    var n := TrailingStart(s, |s|);
    assert s == [] || !IsSpace(s[|s| - 1]);
    assert n == |s|;
  }

  /** Stripping a trimmed string after leading whitespace gives the string. */
  lemma StripAfterSpaces(p: string, s: string)
    requires AllSpace(p) && Trimmed(s)
    ensures Strip(p + s) == s
  {
    StripLeftSpaces(p, s);
    StripRightTrimmed(s);
  }

  /** Two separator-free pieces written with a space after the separator. */
  lemma SplitPair(a: string, b: string, sep: char)
    requires sep !in a && sep !in b && sep != ' '
    ensures Split(a + [sep, ' '] + b, sep) == [a, " " + b]
  {
    var parts := [a, " " + b];
    assert sep !in parts[1];
    assert Join(parts, sep) == a + [sep, ' '] + b by {
      assert Join(parts[1..], sep) == " " + b;
    }
    SplitJoin(parts, sep);
  }

  lemma StripPair(a: string, b: string)
    requires Trimmed(a) && Trimmed(b)
    ensures Strip(a) == a && Strip(" " + b) == b
  {
    StripLeftSpaces([], a);
    assert [] + a == a;
    StripRightTrimmed(a);
    StripAfterSpaces(" ", b);
  }
}
