/** extract_object_mentions and the link pattern it relies on.

    The pattern `\[[^\]]+\]\((?!https?://|mailto:|capacities://)([^)]+)\)`,
    compiled with IGNORECASE and applied with findall, is modelled as an
    explicit left-to-right scanner: LinkAt tries the pattern at one position,
    FindAll collects the captured targets of the non-overlapping matches.
    Each target is then normalised to a document file name, and the names are
    deduplicated in order of first appearance. */
module Mentions {
  import opened Values
  import opened Strings
  import Percent

  // ---------------------------------------------------------------------
  // The link pattern

  /** The simple lower-case mapping the regex engine applies under IGNORECASE,
      for the characters that can match the lower-case ASCII letters of the
      excluded schemes: A-Z, and the three non-ASCII letters Python's engine
      treats as equal to 'i' or 's'. */
  function FoldCase(c: char): char
  {
    if 'A' <= c <= 'Z' then (c as int + 32) as char
    else if c == '\U{130}' || c == '\U{131}' then 'i'
    else if c == '\U{17F}' then 's'
    else c
  }

  /** `s[from..]` starts with `lowered` when case is ignored. */
  predicate StartsWithIgnoreCase(s: string, from: nat, lowered: string)
  {
    from + |lowered| <= |s| && forall k :: 0 <= k < |lowered| ==> FoldCase(s[from + k]) == lowered[k]
  }

  /** The negative lookahead `(?!https?://|mailto:|capacities://)` fails at
      `p`: the text from `p` on starts with an excluded scheme. */
  predicate ExcludedAt(s: string, p: nat)
  {
    || StartsWithIgnoreCase(s, p, "http://")
    || StartsWithIgnoreCase(s, p, "https://")
    || StartsWithIgnoreCase(s, p, "mailto:")
    || StartsWithIgnoreCase(s, p, "capacities://")
  }

  /** Declarative reading of one match: '[' at `i`, a non-empty label free of
      ']' up to the ']' at `j`, '(' right after it, a target starting at
      `j + 2` that does not begin with an excluded scheme, non-empty and free
      of ')', and the ')' at `q` that closes it. */
  predicate IsLink(text: string, i: nat, j: nat, q: nat)
  {
    && i + 1 < j && j + 2 < q < |text|
    && text[i] == '[' && text[j] == ']' && text[j + 1] == '(' && text[q] == ')'
    && (forall k :: i < k < j ==> text[k] != ']')
    && (forall k :: j + 2 <= k < q ==> text[k] != ')')
    && !ExcludedAt(text, j + 2)
  }

  /** The pattern tried at position `i`: when it matches there, the
      positions of the ']' closing the label and of the ')' closing the
      target, which is captured between them and the '(' after the ']'. Both
      repetitions are greedy over a class that excludes their terminator, so
      each runs to the first terminator. */
  function LinkAt(text: string, i: nat): (r: Option<(nat, nat)>)
    requires i <= |text|
    ensures r.Some? ==> IsLink(text, i, r.value.0, r.value.1)
  {
    if i < |text| && text[i] == '[' then
      match IndexOf(text, ']', i + 1)
      case None => None
      case Some(j) =>
        if j == i + 1 || j + 1 >= |text| || text[j + 1] != '(' || ExcludedAt(text, j + 2) then None
        else
          match IndexOf(text, ')', j + 2)
          case None => None
          case Some(q) => if q == j + 2 then None else Some((j, q))
    else None
  }

  /** The scanner and the declarative reading agree in both directions. */
  lemma LinkAtIsLink(text: string, i: nat, j: nat, q: nat)
    requires i <= |text|
    ensures LinkAt(text, i) == Some((j, q)) <==> IsLink(text, i, j, q)
  {
    if IsLink(text, i, j, q) {
      var close := IndexOf(text, ']', i + 1);
      assert close == Some(j) by {
        if close.None? || close.value != j {
          assert false;
        }
      }
      var paren := IndexOf(text, ')', j + 2);
      assert paren == Some(q) by {
        if paren.None? || paren.value != q {
          assert false;
        }
      }
    }
  }

  /** A raw target never starts with an excluded scheme when the text it was
      cut from did not at the same place. */
  lemma TargetNotExcluded(text: string, p: nat, q: nat)
    requires p <= q <= |text| && !ExcludedAt(text, p)
    ensures !ExcludedAt(text[p..q], 0)
  {
    var t := text[p..q];
    forall lowered | StartsWithIgnoreCase(t, 0, lowered)
      ensures StartsWithIgnoreCase(text, p, lowered)
    {
      forall k | 0 <= k < |lowered| ensures FoldCase(text[p + k]) == lowered[k] {
        assert t[k] == text[p + k];
      }
    }
  }

  /** re.findall from position `from`: the captured targets of the
      non-overlapping matches, left to right. After a match the scan resumes
      after its ')'; after a failed attempt, at the next character. */
  function FindAll(text: string, from: nat): (targets: seq<string>)
    requires from <= |text|
    ensures forall k :: 0 <= k < |targets| ==>
              targets[k] != "" && ')' !in targets[k] && !ExcludedAt(targets[k], 0)
    decreases |text| - from
  {
    if from == |text| then []
    else
      match LinkAt(text, from)
      case Some((j, q)) =>
        TargetNotExcluded(text, j + 2, q);
        [text[j + 2..q]] + FindAll(text, q + 1)
      case None => FindAll(text, from + 1)
  }

  /** A link at the scan position is taken whole and the scan resumes after it. */
  lemma FindAllTakesLink(text: string, i: nat, j: nat, q: nat)
    requires i <= |text| && IsLink(text, i, j, q)
    ensures FindAll(text, i) == [text[j + 2..q]] + FindAll(text, q + 1)
  {
    LinkAtIsLink(text, i, j, q);
    assert LinkAt(text, i) == Some((j, q));
  }

  /** A position where no link starts is skipped. */
  lemma FindAllSkips(text: string, i: nat)
    requires i < |text|
    requires forall j, q :: !IsLink(text, i, j, q)
    ensures FindAll(text, i) == FindAll(text, i + 1)
  {
  }

  // ---------------------------------------------------------------------
  // From a raw target to a file name

  /** The last path segment of a target once surrounding whitespace is
      stripped and everything from the first '#', then from the first '?',
      is cut away. */
  function Segment(raw: string): string
  {
    PathName(CutAt(CutAt(Strip(raw), '#'), '?'))
  }

  /** `name.lower().endswith(".md")`. Only 'M' lower-cases to 'm' and only 'D'
      to 'd', so comparing the last three characters is exact. */
  predicate HasMdSuffix(name: string)
  {
    && |name| >= 3
    && name[|name| - 3] == '.'
    && (name[|name| - 2] == 'm' || name[|name| - 2] == 'M')
    && (name[|name| - 1] == 'd' || name[|name| - 1] == 'D')
  }

  /** The body of the extraction loop for one raw target: None where the
      loop continues without recording anything. */
  function Normalize(raw: string): (r: Option<string>)
  {
    var cleaned := Strip(raw);
    if cleaned == "" then None
    else
      var filename := PathName(CutAt(CutAt(cleaned, '#'), '?'));
      if !HasMdSuffix(filename) then None
      else Some(Percent.Unquote(filename))
  }

  /** A target yields a mention exactly when its segment ends in ".md"; the
      mention is that segment percent-decoded. The early exit on an empty
      stripped target changes nothing. */
  lemma NormalizeMeaning(raw: string)
    ensures Normalize(raw) == if HasMdSuffix(Segment(raw)) then Some(Percent.Unquote(Segment(raw))) else None
    ensures Normalize(raw).Some? ==> '/' !in Segment(raw)
  {
  }

  /** The values `f` yields on `xs`, in order, skipping the elements on which
      it yields None. */
  function FilterMap(f: string -> Option<string>, xs: seq<string>): (ys: seq<string>)
    ensures |ys| <= |xs|
  {
    if xs == [] then []
    else
      var init := FilterMap(f, xs[..|xs| - 1]);
      match f(xs[|xs| - 1])
      case Some(y) => init + [y]
      case None => init
  }

  /** One more element extends the result by its own value, if any. */
  lemma FilterMapStep(f: string -> Option<string>, xs: seq<string>, k: nat)
    requires k < |xs|
    ensures f(xs[k]).Some? ==> FilterMap(f, xs[..k + 1]) == FilterMap(f, xs[..k]) + [f(xs[k]).value]
    ensures f(xs[k]).None? ==> FilterMap(f, xs[..k + 1]) == FilterMap(f, xs[..k])
  {
    assert xs[..k + 1][..k] == xs[..k];
  }

  lemma {:induction false} FilterMapElements(f: string -> Option<string>, xs: seq<string>, y: string)
    ensures y in FilterMap(f, xs) <==> exists k :: 0 <= k < |xs| && f(xs[k]) == Some(y)
  {
    if xs != [] {
      var n := |xs| - 1;
      var init := xs[..n];
      FilterMapElements(f, init, y);
      if y in FilterMap(f, xs) {
        if f(xs[n]) != Some(y) {
          var k :| 0 <= k < n && f(init[k]) == Some(y);
          assert init[k] == xs[k];
        }
      } else {
        forall k | 0 <= k < |xs| ensures f(xs[k]) != Some(y) {
          if k < n {
            assert init[k] == xs[k];
          }
        }
      }
    }
  }

  // ---------------------------------------------------------------------
  // Deduplication in first-occurrence order

  predicate NoDuplicates(xs: seq<string>)
  {
    forall i, j :: 0 <= i < j < |xs| ==> xs[i] != xs[j]
  }

  /** The first index at which `x` occurs in `xs`. */
  function FirstIndex(xs: seq<string>, x: string): (k: nat)
    requires x in xs
    ensures k < |xs| && xs[k] == x && x !in xs[..k]
  {
    if xs[0] == x then 0 else 1 + FirstIndex(xs[1..], x)
  }

  /** The elements of `xs`, each kept at its first occurrence only: what the
      `seen` set and the `mentions` list of the extraction loop build. */
  function Dedup(xs: seq<string>): seq<string>
  {
    if xs == [] then []
    else
      var init := Dedup(xs[..|xs| - 1]);
      if xs[|xs| - 1] in init then init else init + [xs[|xs| - 1]]
  }

  lemma DedupStep(xs: seq<string>, y: string)
    ensures Dedup(xs + [y]) == if y in Dedup(xs) then Dedup(xs) else Dedup(xs) + [y]
  {
    assert (xs + [y])[..|xs|] == xs;
  }

  lemma {:induction false} DedupElements(xs: seq<string>)
    ensures forall x :: x in Dedup(xs) <==> x in xs
  {
    if xs != [] {
      DedupElements(xs[..|xs| - 1]);
      assert xs == xs[..|xs| - 1] + [xs[|xs| - 1]];
    }
  }

  lemma {:induction false} DedupNoDuplicates(xs: seq<string>)
    ensures NoDuplicates(Dedup(xs))
  {
    if xs != [] {
      DedupNoDuplicates(xs[..|xs| - 1]);
    }
  }

  lemma FirstIndexPrefix(xs: seq<string>, x: string, n: nat)
    requires n <= |xs| && x in xs[..n]
    ensures FirstIndex(xs[..n], x) == FirstIndex(xs, x)
  {
  }

  /** Each element of `d` occurs in `xs`, and the elements of `d` stand in the
      order of their first occurrences in `xs`. */
  predicate InFirstOccurrenceOrder(d: seq<string>, xs: seq<string>)
  {
    forall i, j :: 0 <= i < j < |d| ==>
      d[i] in xs && d[j] in xs && FirstIndex(xs, d[i]) < FirstIndex(xs, d[j])
  }

  /** The deduplicated elements stand in the order of their first
      occurrences in the input. */
  lemma {:induction false} DedupFirstOccurrenceOrder(xs: seq<string>)
    ensures InFirstOccurrenceOrder(Dedup(xs), xs)
  {
    if xs != [] {
      var n := |xs| - 1;
      var init := xs[..n];
      DedupFirstOccurrenceOrder(init);
      DedupElements(init);
      DedupElements(xs);
      var d := Dedup(xs);
      var d0 := Dedup(init);
      assert d == d0 || d == d0 + [xs[n]];
      forall i, j | 0 <= i < j < |d|
        ensures d[i] in xs && d[j] in xs && FirstIndex(xs, d[i]) < FirstIndex(xs, d[j])
      {
        assert d[i] == d0[i] && d[i] in init;
        FirstIndexPrefix(xs, d[i], n);
        if j < |d0| {
          assert d[j] == d0[j] && d[j] in init;
          FirstIndexPrefix(xs, d[j], n);
        } else {
          assert d[j] == xs[n] && xs[n] !in init;
          assert FirstIndex(xs, d[j]) == n;
        }
      }
    }
  }

  // ---------------------------------------------------------------------
  // extract_object_mentions

  /** What extract_object_mentions returns for `text`. */
  function Mentions(text: string): seq<string>
  {
    if text == "" then [] else Dedup(FilterMap(Normalize, FindAll(text, 0)))
  }

  /** The loop of extract_object_mentions over the matches of the pattern,
      recording each new file name in `seen` and appending it to `mentions`. */
  method ExtractObjectMentions(text: string) returns (mentions: seq<string>)
    ensures text == "" ==> mentions == []
    ensures mentions == Mentions(text)
  {
    if text == "" {
      return [];
    }
    mentions := [];
    var seen: set<string> := {};
    var matches := FindAll(text, 0);
    for k := 0 to |matches|
      invariant mentions == Dedup(FilterMap(Normalize, matches[..k]))
      invariant forall m :: m in seen <==> m in mentions
    {
      FilterMapStep(Normalize, matches, k);
      ghost var before := FilterMap(Normalize, matches[..k]);
      var cleaned := Strip(matches[k]);
      if cleaned != "" {
        if '#' in cleaned {
          cleaned := CutAt(cleaned, '#');
        }
        if '?' in cleaned {
          cleaned := CutAt(cleaned, '?');
        }
        assert cleaned == CutAt(CutAt(Strip(matches[k]), '#'), '?');
        var filename := PathName(cleaned);
        if HasMdSuffix(filename) {
          filename := Percent.Unquote(filename);
          assert Normalize(matches[k]) == Some(filename);
          assert FilterMap(Normalize, matches[..k + 1]) == before + [filename];
          DedupStep(before, filename);
          if filename !in seen {
            seen := seen + {filename};
            mentions := mentions + [filename];
          }
        } else {
          assert Normalize(matches[k]) == None;
          assert FilterMap(Normalize, matches[..k + 1]) == before;
        }
      } else {
        assert Normalize(matches[k]) == None;
        assert FilterMap(Normalize, matches[..k + 1]) == before;
      }
    }
    assert matches[..|matches|] == matches;
  }

  // ---------------------------------------------------------------------
  // Properties of the extraction

  /** No file name is returned twice. */
  lemma MentionsNoDuplicates(text: string)
    ensures NoDuplicates(Mentions(text))
  {
    if text != "" {
      DedupNoDuplicates(FilterMap(Normalize, FindAll(text, 0)));
    }
  }

  /** Mentions appear in the order in which they first occur among the
      normalised targets of the text's links. */
  lemma MentionsInFirstOccurrenceOrder(text: string)
    requires text != ""
    ensures InFirstOccurrenceOrder(Mentions(text), FilterMap(Normalize, FindAll(text, 0)))
  {
    DedupFirstOccurrenceOrder(FilterMap(Normalize, FindAll(text, 0)));
  }

  /** A file name is mentioned exactly when some matched link target has a
      last segment ending in ".md" (in any case) whose percent-decoding it is. */
  lemma MentionProvenance(text: string, x: string)
    ensures x in Mentions(text) <==>
            text != "" &&
            exists t :: t in FindAll(text, 0) && HasMdSuffix(Segment(t)) && x == Percent.Unquote(Segment(t))
  {
    if text != "" {
      var raws := FindAll(text, 0);
      DedupElements(FilterMap(Normalize, raws));
      FilterMapElements(Normalize, raws, x);
      forall t | t in raws ensures Normalize(t) == Some(x) <==> (HasMdSuffix(Segment(t)) && x == Percent.Unquote(Segment(t))) {
        NormalizeMeaning(t);
      }
      if x in Mentions(text) {
        var k :| 0 <= k < |raws| && Normalize(raws[k]) == Some(x);
        assert raws[k] in raws;
      } else {
        forall t | t in raws ensures !(HasMdSuffix(Segment(t)) && x == Percent.Unquote(Segment(t))) {
          var k :| 0 <= k < |raws| && raws[k] == t;
        }
      }
    }
  }

  /** A target starting with http://, https://, mailto: or capacities://, in
      any case, is never matched, so it never contributes a mention. */
  lemma ExcludedTargetsNeverMatch(text: string, t: string)
    requires ExcludedAt(t, 0)
    ensures t !in FindAll(text, 0)
  {
  }
}
