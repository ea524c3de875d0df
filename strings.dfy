/** The pieces of Python's `str` and `pathlib` behaviour the core relies on:
    whitespace stripping, searching, cutting at a delimiter, and the `name`
    and `stem` of a POSIX path. */
module Strings {
  import opened Values
  import opened Collections

  /** The characters Python's str.isspace() accepts, which str.strip() removes. */
  predicate IsSpace(c: char)
  {
    || c == ' '
    || ('\t' <= c <= '\r')
    || ('\U{1C}' <= c <= '\U{1F}')
    || c == '\U{85}'
    || c == '\U{A0}'
    || c == '\U{1680}'
    || ('\U{2000}' <= c <= '\U{200A}')
    || c == '\U{2028}'
    || c == '\U{2029}'
    || c == '\U{202F}'
    || c == '\U{205F}'
    || c == '\U{3000}'
  }

  /** The end of the run of whitespace that starts at `i`. */
  function SpaceEnd(s: string, i: nat): (a: nat)
    requires i <= |s|
    ensures i <= a <= |s|
    ensures forall k :: i <= k < a ==> IsSpace(s[k])
    ensures a < |s| ==> !IsSpace(s[a])
    decreases |s| - i
  {
    if i < |s| && IsSpace(s[i]) then SpaceEnd(s, i + 1) else i
  }

  /** The start of the run of whitespace that ends at `j`, not going below
      `lo`. */
  function SpaceStart(s: string, j: nat, lo: nat): (b: nat)
    requires lo <= j <= |s|
    ensures lo <= b <= j
    ensures forall k :: b <= k < j ==> IsSpace(s[k])
    ensures b > lo ==> !IsSpace(s[b - 1])
    decreases j
  {
    if j > lo && IsSpace(s[j - 1]) then SpaceStart(s, j - 1, lo) else j
  }

  /** Python's s.strip(): the infix of `s` left when the whitespace at both
      ends is removed. It starts where the leading whitespace ends. */
  function Strip(s: string): (r: string)
    ensures r == [] || (!IsSpace(r[0]) && !IsSpace(r[|r| - 1]))
    ensures var a := SpaceEnd(s, 0);
            && a + |r| <= |s| && s[a..a + |r|] == r
            && (forall k :: 0 <= k < a ==> IsSpace(s[k]))
            && (forall k :: a + |r| <= k < |s| ==> IsSpace(s[k]))
  {
    var a := SpaceEnd(s, 0);
    s[a..SpaceStart(s, |s|, a)]
  }

  /** First index at or after `from` holding `c`. */
  function IndexOf(s: string, c: char, from: nat): (r: Option<nat>)
    requires from <= |s|
    ensures r.Some? ==> from <= r.value < |s| && s[r.value] == c
    ensures r.Some? ==> forall k :: from <= k < r.value ==> s[k] != c
    ensures r.None? ==> forall k :: from <= k < |s| ==> s[k] != c
    decreases |s| - from
  {
    if from == |s| then None
    else if s[from] == c then Some(from)
    else IndexOf(s, c, from + 1)
  }

  /** Last index holding `c`. */
  function LastIndexOf(s: string, c: char): (r: Option<nat>)
    ensures r.Some? ==> r.value < |s| && s[r.value] == c
    ensures r.Some? ==> forall k :: r.value < k < |s| ==> s[k] != c
    ensures r.None? ==> c !in s
  {
    if s == [] then None
    else if s[|s| - 1] == c then Some(|s| - 1)
    else LastIndexOf(s[..|s| - 1], c)
  }

  /** `s.split(c, 1)[0]` when `c in s`, else `s`: the part of `s` before the
      first `c`. */
  function CutAt(s: string, c: char): (r: string)
    ensures |r| <= |s| && r == s[..|r|]
    ensures c !in r
    ensures |r| < |s| <==> c in s
    ensures |r| < |s| ==> s[|r|] == c
  {
    match IndexOf(s, c, 0)
    case Some(k) => s[..k]
    case None => s
  }

  /** `pat` occurs in `s` starting at index `k`. */
  predicate OccursAt(s: string, pat: string, k: nat)
  {
    k + |pat| <= |s| && s[k..k + |pat|] == pat
  }

  /** Python's s.find(pat, from) for a non-empty `pat`. */
  function Find(s: string, pat: string, from: nat): (r: Option<nat>)
    requires from <= |s|
    ensures r.Some? ==> from <= r.value && OccursAt(s, pat, r.value)
    ensures r.Some? ==> forall k :: from <= k < r.value ==> !OccursAt(s, pat, k)
    ensures r.None? ==> forall k :: from <= k <= |s| ==> !OccursAt(s, pat, k)
    decreases |s| - from
  {
    if from + |pat| > |s| then None
    else if s[from..from + |pat|] == pat then Some(from)
    else Find(s, pat, from + 1)
  }

  predicate EndsWith(s: string, suffix: string)
  {
    |suffix| <= |s| && s[|s| - |suffix|..] == suffix
  }

  /** PurePosixPath(s).name: the last `/`-separated segment of `s` that is
      neither empty nor ".", or "" when there is none. */
  function PathName(s: string): (r: string)
    ensures '/' !in r && r != "."
    ensures |r| <= |s|
    decreases |s|
  {
    match LastIndexOf(s, '/')
    case None => if s == "." then "" else s
    case Some(k) =>
      var segment := s[k + 1..];
      if segment != "" && segment != "." then segment else PathName(s[..k])
  }

  /** `s.split("/")`: the pieces between consecutive '/' characters, left
      to right. */
  function SplitSlash(s: string): (parts: seq<string>)
    ensures parts != []
    decreases |s|
  {
    match IndexOf(s, '/', 0)
    case None => [s]
    case Some(k) => [s[..k]] + SplitSlash(s[k + 1..])
  }

  /** The components a POSIX path keeps of those pieces: all but the empty
      ones and ".". */
  function Components(parts: seq<string>): (kept: seq<string>)
    ensures forall k :: 0 <= k < |kept| ==> kept[k] != "" && kept[k] != "."
  {
    if parts == [] then []
    else (if parts[0] != "" && parts[0] != "." then [parts[0]] else []) + Components(parts[1..])
  }

  /** PurePosixPath(s).name is the last component of `s`, or "" when `s` has
      none. */
  lemma {:induction false} PathNameIsLastComponent(s: string)
    ensures var c := Components(SplitSlash(s)); PathName(s) == if c == [] then "" else c[|c| - 1]
    decreases |s|
  {
    match LastIndexOf(s, '/')
    case None =>
      NoSlashIsOnePiece(s);
      ComponentsAppendOne([], s);
    case Some(k) =>
      var segment := s[k + 1..];
      var init := Components(SplitSlash(s[..k]));
      SplitSlashLast(s, k);
      ComponentsAppendOne(SplitSlash(s[..k]), segment);
      assert Components(SplitSlash(s)) == init + (if segment != "" && segment != "." then [segment] else []);
      if segment != "" && segment != "." {
        assert PathName(s) == segment;
      } else {
        assert PathName(s) == PathName(s[..k]);
        PathNameIsLastComponent(s[..k]);
      }
  }

  lemma NoSlashIsOnePiece(s: string)
    requires '/' !in s
    ensures SplitSlash(s) == [s]
  {
    match IndexOf(s, '/', 0)
    case None =>
    case Some(v) =>
      assert false;
  }

  /** Splitting at the last '/' adds the text after it as the last piece. */
  lemma {:induction false} SplitSlashLast(s: string, k: nat)
    requires k < |s| && s[k] == '/' && '/' !in s[k + 1..]
    ensures SplitSlash(s) == SplitSlash(s[..k]) + [s[k + 1..]]
    decreases |s|
  {
    NoSlashIsOnePiece(s[k + 1..]);
    var i := IndexOf(s, '/', 0).value;
    if i == k {
      assert '/' !in s[..k] by {
        assert forall j :: 0 <= j < k ==> s[..k][j] == s[j];
      }
      NoSlashIsOnePiece(s[..k]);
    } else {
      var t := s[i + 1..];
      assert t[k - i - 1] == '/' && t[k - i..] == s[k + 1..];
      SplitSlashLast(t, k - i - 1);
      assert t[..k - i - 1] == s[i + 1..k];
      FirstSlashOfPrefix(s, i, k);
      AppendAssoc([s[..i]], SplitSlash(s[i + 1..k]), [s[k + 1..]]);
    }
  }

  /** Cutting `s` after its first '/' keeps the first piece. */
  lemma FirstSlashOfPrefix(s: string, i: nat, k: nat)
    requires i < k <= |s| && IndexOf(s, '/', 0) == Some(i)
    ensures SplitSlash(s[..k]) == [s[..i]] + SplitSlash(s[i + 1..k])
  {
    assert s[..k][i] == '/';
    assert IndexOf(s[..k], '/', 0) == Some(i);
    assert s[..k][..i] == s[..i] && s[..k][i + 1..] == s[i + 1..k];
  }

  lemma {:induction false} ComponentsAppendOne(parts: seq<string>, p: string)
    ensures Components(parts + [p]) == Components(parts) + (if p != "" && p != "." then [p] else [])
    decreases |parts|
  {
    if parts == [] {
      assert [p][1..] == [];
    } else {
      assert (parts + [p])[1..] == parts[1..] + [p];
      ComponentsAppendOne(parts[1..], p);
      AppendAssoc(if parts[0] != "" && parts[0] != "." then [parts[0]] else [],
                  Components(parts[1..]), if p != "" && p != "." then [p] else []);
    }
  }

  /** An entry name ending in ".md" has a base name ending in ".md". */
  lemma MarkdownBaseName(s: string)
    requires EndsWith(s, ".md")
    ensures EndsWith(PathName(s), ".md")
  {
    var n := |s|;
    assert s[n - 3..] == ".md";
    match LastIndexOf(s, '/')
    case None =>
      assert |s| >= 3 && s[0..] == s;
    case Some(k) =>
      MarkdownHasNoSlashAtEnd(s, k);
      SuffixOfSuffix(s, k + 1, 3);
      assert PathName(s) == s[k + 1..];
  }

  /** The base name of an entry name ending in ".md" is the text after its
      last '/', or the whole name when it has none. */
  lemma MarkdownBaseNameIsLastSegment(s: string)
    requires EndsWith(s, ".md")
    ensures var k := |s| - |PathName(s)|; PathName(s) == s[k..] && (k == 0 || s[k - 1] == '/')
  {
    match LastIndexOf(s, '/')
    case None =>
      assert |s| >= 3 && s[0..] == s;
    case Some(k) =>
      MarkdownHasNoSlashAtEnd(s, k);
      assert PathName(s) == s[k + 1..];
  }

  lemma MarkdownHasNoSlashAtEnd(s: string, k: nat)
    requires EndsWith(s, ".md") && k < |s| && s[k] == '/'
    ensures k + 4 <= |s| && s[k + 1..] != "" && s[k + 1..] != "."
  {
    var n := |s|;
    assert s[n - 3..] == ".md";
    assert s[n - 3] == '.' && s[n - 2] == 'm' && s[n - 1] == 'd';
  }

  /** PurePath.stem: the final name without its last suffix. A suffix starts
      at the last '.', provided that dot is neither the first nor the last
      character of the name. */
  function Stem(name: string): (r: string)
    ensures |r| <= |name| && r == name[..|r|]
    ensures r != name ==> 0 < |r| < |name| - 1 && name[|r|] == '.' && '.' !in name[|r| + 1..]
    ensures forall i :: 0 < i < |name| - 1 && name[i] == '.' && '.' !in name[i + 1..] ==> r == name[..i]
  {
    match LastIndexOf(name, '.')
    case Some(i) =>
      if 0 < i < |name| - 1 then name[..i] else name
    case None => name
  }
}
