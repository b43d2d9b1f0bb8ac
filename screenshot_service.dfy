/** Screenshot file names: the slug of a case name, the relative path a
    saved screenshot is recorded under, and its resolution against the
    screenshot directory. The file writes themselves are not modelled. */
module ScreenshotService {
  import opened Common
  import opened Text

  /** The ASCII members of the regular-expression class `\w`. */
  predicate IsWordChar(c: char)
  {
    ('a' <= c <= 'z') || ('A' <= c <= 'Z') || ('0' <= c <= '9') || c == '_'
  }

  /** The characters a slug is made of. */
  predicate IsSlugChar(c: char)
  {
    ('a' <= c <= 'z') || ('0' <= c <= '9') || c == '_' || c == '-'
  }

  /** A character of the class `[\w\s-]`. */
  predicate AllowedChar(c: char)
  {
    IsWordChar(c) || IsSpace(c) || c == '-'
  }

  /** Only characters of `[\w\s-]`. */
  predicate Allowed(s: string)
  {
    forall i :: 0 <= i < |s| ==> AllowedChar(s[i])
  }

  predicate NoSpace(s: string)
  {
    forall i :: 0 <= i < |s| ==> !IsSpace(s[i])
  }

  /** The first substitution: every character outside `[\w\s-]` removed. */
  function KeepAllowed(s: string): (r: string)
    ensures |r| <= |s| && Allowed(r)
    ensures Allowed(s) ==> r == s
  {
    if s == [] then []
    else if AllowedChar(s[0]) then [s[0]] + KeepAllowed(s[1..])
    else KeepAllowed(s[1..])
  }

  /** Every character inside `[\w\s-]` is kept as often as it occurs, and
      every character outside it is gone. */
  lemma {:induction false} KeepAllowedCounts(s: string)
    ensures forall c :: multiset(KeepAllowed(s))[c] == (if AllowedChar(c) then multiset(s)[c] else 0)
    decreases |s|
  {
    if s != [] {
      KeepAllowedCounts(s[1..]);
      assert s == [s[0]] + s[1..];
    }
  }

  /** The substitution works character by character, so the kept
      characters stay in their order. */
  lemma {:induction false} KeepAllowedConcat(x: string, y: string)
    ensures KeepAllowed(x + y) == KeepAllowed(x) + KeepAllowed(y)
    decreases |x|
  {
    if x == [] {
      assert [] + y == y;
    } else {
      assert (x + y)[0] == x[0];
      assert (x + y)[1..] == x[1..] + y;
      KeepAllowedConcat(x[1..], y);
    }
  }

  /** The second substitution: each maximal run of whitespace replaced by
      one underscore. */
  function CollapseSpaces(s: string): (r: string)
    decreases |s|
  {
    if s == [] then []
    else if IsSpace(s[0]) then "_" + CollapseSpaces(StripLeft(s[1..]))
    else [s[0]] + CollapseSpaces(s[1..])
  }

  /** Only word characters and hyphens. */
  predicate WordOrHyphen(s: string)
  {
    forall i :: 0 <= i < |s| ==> IsWordChar(s[i]) || s[i] == '-'
  }

  /** After the second substitution no whitespace is left. */
  lemma {:induction false} CollapseRemovesSpaces(s: string)
    ensures NoSpace(CollapseSpaces(s))
    decreases |s|
  {
    if s != [] {
      if IsSpace(s[0]) {
        CollapseRemovesSpaces(StripLeft(s[1..]));
      } else {
        CollapseRemovesSpaces(s[1..]);
      }
    }
  }

  /** A suffix of text made of `[\w\s-]` is made of them too. */
  lemma AllowedSuffix(s: string, k: nat)
    requires Allowed(s) && k <= |s|
    ensures Allowed(s[k..])
  {
    forall i | 0 <= i < |s[k..]| ensures AllowedChar(s[k..][i]) {
      assert s[k..][i] == s[k + i];
    }
  }

  /** If only characters of `[\w\s-]` go into the second substitution, only
      word characters and `-` come out. */
  lemma {:induction false} CollapseKeepsWordChars(s: string)
    requires Allowed(s)
    ensures WordOrHyphen(CollapseSpaces(s))
    decreases |s|
  {
    if s != [] {
      AllowedSuffix(s, 1);
      if IsSpace(s[0]) {
        var rest := StripLeft(s[1..]);
        AllowedSuffix(s[1..], |s[1..]| - |rest|);
        CollapseKeepsWordChars(rest);
      } else {
        CollapseKeepsWordChars(s[1..]);
      }
    }
  }

  /** Without whitespace there is nothing to collapse. */
  lemma {:induction false} CollapseWithoutSpaces(s: string)
    requires NoSpace(s)
    ensures CollapseSpaces(s) == s
    decreases |s|
  {
    if s != [] {
      assert NoSpace(s[1..]);
      CollapseWithoutSpaces(s[1..]);
      assert s == [s[0]] + s[1..];
    }
  }

  /** `str.lower()` on ASCII letters. */
  function LowerChar(c: char): char
  {
    if 'A' <= c <= 'Z' then (c as int + 32) as char else c
  }

  function Lower(s: string): (r: string)
    ensures |r| == |s|
    ensures forall i :: 0 <= i < |r| ==> r[i] == LowerChar(s[i])
  {
    seq(|s|, i requires 0 <= i < |s| => LowerChar(s[i]))
  }

  /** `slugify`: drop characters outside `[\w\s-]`, turn each run of
      whitespace into `_`, lower-case the rest. */
  function Slugify(text: string): (r: string)
    ensures forall i :: 0 <= i < |r| ==> IsSlugChar(r[i])
    ensures forall i :: 0 <= i < |r| ==> !IsSpace(r[i]) && !('A' <= r[i] <= 'Z')
  {
    CollapseRemovesSpaces(KeepAllowed(text));
    CollapseKeepsWordChars(KeepAllowed(text));
    Lower(CollapseSpaces(KeepAllowed(text)))
  }

  /** A run of whitespace, however long, becomes a single underscore. */
  lemma CollapseRun(run: string, rest: string)
    requires run != [] && AllSpace(run) && (rest == [] || !IsSpace(rest[0]))
    ensures CollapseSpaces(run + rest) == "_" + CollapseSpaces(rest)
  {
    assert (run + rest)[1..] == run[1..] + rest;
    StripLeftSpaces(run[1..], rest);
  }

  /** A slug is its own slug. */
  lemma SlugifyIdempotent(text: string)
    ensures Slugify(Slugify(text)) == Slugify(text)
  {
    var s := Slugify(text);
    assert Allowed(s);
    assert KeepAllowed(s) == s;
    CollapseWithoutSpaces(s);
    assert Lower(s) == s;
  }

  /** Two words separated by whitespace, such as "Login Test", become the
      lower-cased words joined by an underscore ("login_test"). */
  lemma SlugifyTwoWords(a: string, gap: string, b: string)
    requires forall i :: 0 <= i < |a| ==> IsWordChar(a[i])
    requires forall i :: 0 <= i < |b| ==> IsWordChar(b[i])
    requires gap != [] && AllSpace(gap)
    ensures Slugify(a + gap + b) == Lower(a) + "_" + Lower(b)
  {
    AllowedConcat(a, gap);
    AllowedConcat(a + gap, b);
    CollapseTwoWords(a, gap, b);
    SlugifyOf(a + gap + b, a + gap + b, a + ("_" + b));
    LowerConcat(a, "_" + b);
    LowerConcat("_", b);
    assert Lower("_") == "_";
  }

  lemma SlugifyOf(text: string, kept: string, collapsed: string)
    requires KeepAllowed(text) == kept && CollapseSpaces(kept) == collapsed
    ensures Slugify(text) == Lower(collapsed)
  {
  }

  lemma CollapseTwoWords(a: string, gap: string, b: string)
    requires NoSpace(a) && NoSpace(b)
    requires gap != [] && AllSpace(gap)
    ensures CollapseSpaces(a + gap + b) == a + ("_" + b)
  {
    assert a + gap + b == a + (gap + b);
    CollapseAfterWord(a, gap + b);
    CollapseRun(gap, b);
    CollapseWithoutSpaces(b);
  }

  lemma AllowedConcat(x: string, y: string)
    requires Allowed(x) && Allowed(y)
    ensures Allowed(x + y)
  {
    assert forall i :: 0 <= i < |x| ==> (x + y)[i] == x[i];
    assert forall i :: |x| <= i < |x + y| ==> (x + y)[i] == y[i - |x|];
  }

  lemma LowerConcat(x: string, y: string)
    ensures Lower(x + y) == Lower(x) + Lower(y)
  {
  }

  lemma {:induction false} CollapseAfterWord(a: string, rest: string)
    requires NoSpace(a)
    ensures CollapseSpaces(a + rest) == a + CollapseSpaces(rest)
    decreases |a|
  {
    if a != [] {
      var s := a + rest;
      assert s[0] == a[0] && !IsSpace(a[0]);
      assert s[1..] == a[1..] + rest;
      assert NoSpace(a[1..]);
      CollapseAfterWord(a[1..], rest);
      calc {
        CollapseSpaces(s);
        [a[0]] + CollapseSpaces(a[1..] + rest);
        [a[0]] + (a[1..] + CollapseSpaces(rest));
        { assert a == [a[0]] + a[1..]; }
        a + CollapseSpaces(rest);
      }
    } else {
      assert a + rest == rest;
    }
  }

  lemma LoginTest(s: string)
    requires s == "Login Test"
    ensures Slugify(s) == "login_test"
  {
    assert s == "Login" + " " + "Test";
    SlugifyTwoWords("Login", " ", "Test");
    assert Lower("Login") == "login";
    assert Lower("Test") == "test";
  }

  /** A decimal digit. */
  function Digit(d: nat): (c: char)
    requires d < 10
    ensures '0' <= c <= '9'
  {
    ('0' as int + d) as char
  }

  predicate AllDigits(s: string)
  {
    forall i :: 0 <= i < |s| ==> '0' <= s[i] <= '9'
  }

  /** `str(n)` for a natural number: its decimal digits. */
  function NatToString(n: nat): (r: string)
    ensures r != [] && AllDigits(r)
    decreases n
  {
    if n < 10 then [Digit(n)] else NatToString(n / 10) + [Digit(n % 10)]
  }

  /** The value a string of decimal digits denotes. */
  function DigitsValue(s: string): nat
    requires AllDigits(s)
  {
    if s == [] then 0 else DigitsValue(s[..|s| - 1]) * 10 + (s[|s| - 1] as int - '0' as int)
  }

  /** Reading the digits back gives the number, so different numbers are
      written differently. */
  lemma {:induction false} NatToStringRoundTrip(n: nat)
    ensures DigitsValue(NatToString(n)) == n
    decreases n
  {
    if n >= 10 {
      var s := NatToString(n);
      NatToStringRoundTrip(n / 10);
      assert s[..|s| - 1] == NatToString(n / 10);
    }
  }

  /** The index of the last path component that names something, as
      `PurePosixPath.name` finds it: empty and `.` components do not count;
      -1 when no component names anything. */
  function LastNamed(parts: seq<string>): (k: int)
    ensures -1 <= k < |parts|
    ensures k >= 0 ==> parts[k] != "" && parts[k] != "."
    ensures forall j :: k < j < |parts| ==> parts[j] == "" || parts[j] == "."
  {
    if parts == [] then -1
    else if parts[|parts| - 1] != "" && parts[|parts| - 1] != "." then |parts| - 1
    else LastNamed(parts[..|parts| - 1])
  }

  /** Component `k` names something and every later one is empty or `.`. */
  predicate NamedLast(parts: seq<string>, k: int)
  {
    && 0 <= k < |parts| && parts[k] != "" && parts[k] != "."
    && forall j :: k < j < |parts| ==> parts[j] == "" || parts[j] == "."
  }

  /** `Path(filename).name`: the last component of the path that is
      neither empty nor `.`, or "" when there is none. */
  function FileNameOf(path: string): (r: string)
    ensures '/' !in r
    ensures var parts := Split(path, '/');
      || (r == "" && forall j :: 0 <= j < |parts| ==> parts[j] == "" || parts[j] == ".")
      || (exists k :: NamedLast(parts, k) && r == parts[k])
  {
    var parts := Split(path, '/');
    var k := LastNamed(parts);
    if k < 0 then "" else
      assert '/' !in parts[k] && NamedLast(parts, k);
      assert exists i :: NamedLast(Split(path, '/'), i) && parts[k] == Split(path, '/')[i];
      parts[k]
  }

  /** The index of the last `.`, or -1 when there is none. */
  function LastDot(name: string): (i: int)
    ensures -1 <= i < |name|
    ensures i >= 0 ==> name[i] == '.' && '.' !in name[i + 1..]
    ensures i == -1 ==> '.' !in name
  {
    if name == [] then -1
    else if name[|name| - 1] == '.' then |name| - 1
    else
      var i := LastDot(name[..|name| - 1]);
      assert name == name[..|name| - 1] + [name[|name| - 1]];
      i
  }

  /** `PurePath.suffix`: from the last dot on, provided that dot neither
      starts nor ends the name; otherwise empty. */
  function Suffix(name: string): (r: string)
    ensures r != "" <==> 0 < LastDot(name) < |name| - 1
    ensures r != "" ==> r == name[LastDot(name)..]
    ensures r == "" || (|r| >= 2 && r[0] == '.' && '.' !in r[1..])
    ensures |r| <= |name| && r == name[|name| - |r|..]
  {
    var i := LastDot(name);
    if 0 < i < |name| - 1 then
      assert name[i..][1..] == name[i + 1..];
      name[i..]
    else ""
  }

  /** The extension `save_screenshot` gives the file: the suffix of the
      upload's file name, or ".png" when the upload has no file name. An
      uploaded name without a suffix gives no extension at all. */
  function Extension(filename: Option<string>): (r: string)
    ensures !Truthy(filename) ==> r == ".png"
    ensures Truthy(filename) ==> r == Suffix(FileNameOf(filename.value))
    ensures r == "" || (r[0] == '.' && '.' !in r[1..])
    ensures '/' !in r
  {
    if Truthy(filename) then
      var name := FileNameOf(filename.value);
      var r := Suffix(name);
      assert forall c :: c in r ==> c in name;
      r
    else ".png"
  }

  /** The name of `dir/name` is `name`. */
  lemma FileNameInDirectory(dir: string, name: string)
    requires '/' !in dir && '/' !in name && name != "" && name != "."
    ensures FileNameOf(dir + "/" + name) == name
  {
    SplitJoin([dir, name], '/');
    assert Join([dir, name], '/') == dir + "/" + name;
    assert LastNamed([dir, name]) == 1;
  }

  /** The suffix of `stem.ext` is `.ext` when neither part is empty or
      holds a dot. */
  lemma SuffixOfStemAndExtension(stem: string, ext: string)
    requires stem != "" && ext != "" && '.' !in stem && '.' !in ext
    ensures Suffix(stem + "." + ext) == "." + ext
  {
    var name := stem + "." + ext;
    var i := LastDot(name);
    assert name[|stem|] == '.';
    assert forall j :: 0 <= j < |stem| ==> name[j] == stem[j];
    assert forall j :: |stem| < j < |name| ==> name[j] == ext[j - |stem| - 1];
    assert '.' in name;
    assert i == |stem|;
    assert name[|stem|..] == "." + ext;
  }

  /** An upload named "dir/shot.png" is saved with the extension ".png". */
  lemma UploadExtension(upload: string)
    requires upload == "dir/shot.png"
    ensures Extension(Some(upload)) == ".png"
  {
    var name := "shot" + "." + "png";
    assert upload == "dir" + "/" + name;
    FileNameInDirectory("dir", name);
    SuffixOfStemAndExtension("shot", "png");
  }

  /** The stored file name `{slug}_{timestamp}{ext}`. */
  function ScreenshotFileName(caseName: string, timestamp: nat, filename: Option<string>): (r: string)
    ensures '/' !in r
  {
    var slug := Slugify(caseName);
    var digits := NatToString(timestamp);
    var r := slug + "_" + digits + Extension(filename);
    assert forall c :: c in slug ==> IsSlugChar(c);
    assert forall c :: c in digits ==> '0' <= c <= '9';
    r
  }

  /** The relative path `save_screenshot` returns: `{run_id}/{file name}`. */
  function RelativePath(runId: Id, caseName: string, timestamp: nat, filename: Option<string>): string
  {
    NatToString(runId) + "/" + ScreenshotFileName(caseName, timestamp, filename)
  }

  /** The relative path names a file directly inside the run's directory:
      it has exactly one separator, between the run id and the file name. */
  lemma RelativePathInRunDirectory(runId: Id, caseName: string, timestamp: nat, filename: Option<string>)
    ensures Split(RelativePath(runId, caseName, timestamp, filename), '/')
            == [NatToString(runId), ScreenshotFileName(caseName, timestamp, filename)]
  {
    var dir := NatToString(runId);
    var file := ScreenshotFileName(caseName, timestamp, filename);
    assert '/' !in dir by {
      assert forall c :: c in dir ==> '0' <= c <= '9';
    }
    var parts := [dir, file];
    assert Join(parts, '/') == dir + "/" + file by {
      assert Join(parts[1..], '/') == file;
    }
    SplitJoin(parts, '/');
  }

  /** Screenshots of the same case taken at different seconds are stored
      under different paths. */
  lemma DistinctTimestampsDistinctPaths(runId: Id, caseName: string, t1: nat, t2: nat, filename: Option<string>)
    requires t1 != t2
    ensures RelativePath(runId, caseName, t1, filename) != RelativePath(runId, caseName, t2, filename)
  {
    NatToStringRoundTrip(t1);
    NatToStringRoundTrip(t2);
    RelativePathParts(runId, caseName, t1, filename);
    RelativePathParts(runId, caseName, t2, filename);
    DigitsDiffer(NatToString(runId) + "/", Slugify(caseName) + "_", NatToString(t1), NatToString(t2), Extension(filename));
  }

  /** The relative path split into the part before the timestamp, the
      timestamp digits and the extension. */
  lemma RelativePathParts(runId: Id, caseName: string, t: nat, filename: Option<string>)
    ensures RelativePath(runId, caseName, t, filename)
            == (NatToString(runId) + "/") + ((Slugify(caseName) + "_") + NatToString(t) + Extension(filename))
  {
  }

  /** Different digits in the same place give different strings. */
  lemma DigitsDiffer(x: string, y: string, d1: string, d2: string, e: string)
    requires d1 != d2
    ensures x + (y + d1 + e) != x + (y + d2 + e)
  {
    if |d1| == |d2| {
      DigitsAt(x, y, d1, e);
      DigitsAt(x, y, d2, e);
    } else {
      assert |x + (y + d1 + e)| != |x + (y + d2 + e)|;
    }
  }

  /** The timestamp digits can be read back from their place in the path. */
  lemma DigitsAt(x: string, y: string, d: string, e: string)
    ensures (x + (y + d + e))[|x| + |y|..|x| + |y| + |d|] == d
  {
    var s := x + (y + d + e);
    forall i | 0 <= i < |d|
      ensures s[|x| + |y| + i] == d[i]
    {
      assert s[|x| + |y| + i] == (y + d + e)[|y| + i];
    }
  }

  /** `get_screenshot_full_path`: None for an empty relative path or a file
      that does not exist; otherwise the path under the screenshot directory
      (an absolute relative path stands on its own, as `/` does for Path). */
  function FullPath(screenshotDir: string, relativePath: string, fileExists: bool): (r: Option<string>)
    ensures r.Some? <==> relativePath != "" && fileExists
    ensures r.Some? ==> |relativePath| <= |r.value| && r.value[|r.value| - |relativePath|..] == relativePath
  {
    if relativePath == "" then None
    else
      var full := if relativePath[0] == '/' then relativePath else screenshotDir + "/" + relativePath;
      if fileExists then Some(full) else None
  }
}
