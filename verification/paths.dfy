/**
 Where a translated quest file is written: the input path with every
 occurrence of `chapters` replaced by `chapters-translate`, the way
 Python's `str.replace` does it (left to right, non-overlapping).
 */
module OutputPaths {
  import opened Text

  const Chapters: string := "chapters"
  const TranslatedChapters: string := "chapters-translate"

  /**
   Python's `s.replace(pat, rep)` for a non-empty `pat`: scanning left to
   right, each occurrence found is replaced and scanning resumes after it.
   */
  function ReplaceAll(s: string, pat: string, rep: string): (r: string)
    requires |pat| > 0
    decreases |s|
  {
    if |s| == 0 then []
    else if OccursAt(s, pat, 0) then rep + ReplaceAll(s[|pat|..], pat, rep)
    else [s[0]] + ReplaceAll(s[1..], pat, rep)
  }

  /** Without an occurrence of the pattern, `str.replace` returns its input. */
  lemma {:induction false} ReplaceAllWithout(s: string, pat: string, rep: string)
    requires |pat| > 0 && !Contains(s, pat)
    ensures ReplaceAll(s, pat, rep) == s
    decreases |s|
  {
    if |s| > 0 {
      assert !OccursAt(s, pat, 0);
      forall k | 0 <= k <= |s| - 1 - |pat| ensures !OccursAt(s[1..], pat, k) {
        OccursAtTail(s, pat, k);
      }
      ReplaceAllWithout(s[1..], pat, rep);
      assert s == [s[0]] + s[1..];
    }
  }

  /**
   How many occurrences of a non-empty `pat` a left-to-right replace of all
   occurrences rewrites: the non-overlapping ones, leftmost first.
   */
  function Count(s: string, pat: string): nat
    requires |pat| > 0
    decreases |s|
  {
    if |s| == 0 then 0
    else if OccursAt(s, pat, 0) then 1 + Count(s[|pat|..], pat)
    else Count(s[1..], pat)
  }

  /** The output path of `process_file`. */
  function OutputPath(path: string): string
  {
    ReplaceAll(path, Chapters, TranslatedChapters)
  }

  /** Each replacement changes the length by the difference of the two strings. */
  lemma {:induction false} ReplaceAllLength(s: string, pat: string, rep: string)
    requires |pat| > 0
    ensures |ReplaceAll(s, pat, rep)| == |s| + (|rep| - |pat|) * Count(s, pat)
    decreases |s|
  {
    if |s| > 0 {
      var d := |rep| - |pat|;
      if OccursAt(s, pat, 0) {
        var s' := s[|pat|..];
        var c := Count(s', pat);
        ReplaceAllLength(s', pat, rep);
        assert |ReplaceAll(s, pat, rep)| == |rep| + |s'| + d * c;
        MulSucc(d, c);
      } else {
        ReplaceAllLength(s[1..], pat, rep);
      }
    }
  }

  lemma MulSucc(d: int, c: int)
    ensures d * (1 + c) == d + d * c
  {
  }

  /** The count is zero exactly when the pattern does not occur at all. */
  lemma {:induction false} CountZero(s: string, pat: string)
    requires |pat| > 0
    ensures Count(s, pat) == 0 <==> !Contains(s, pat)
    decreases |s|
  {
    if |s| > 0 && !OccursAt(s, pat, 0) {
      CountZero(s[1..], pat);
      forall k | 0 <= k ensures OccursAt(s[1..], pat, k) <==> OccursAt(s, pat, k + 1) {
        OccursAtTail(s, pat, k);
      }
      if Contains(s, pat) {
        var i :| 0 <= i <= |s| - |pat| && OccursAt(s, pat, i);
        assert OccursAt(s[1..], pat, i - 1);
      }
    } else if |s| > 0 {
      assert OccursAt(s, pat, 0);
    }
  }

  /**
   The output path equals the input path exactly when the input has no
   `chapters` in it; otherwise it is ten characters longer per occurrence.
   */
  lemma OutputPathChanges(path: string)
    ensures |OutputPath(path)| == |path| + 10 * Count(path, Chapters)
    ensures OutputPath(path) == path <==> !Contains(path, Chapters)
  {
    if !Contains(path, Chapters) {
      ReplaceAllWithout(path, Chapters, TranslatedChapters);
    }
    ReplaceAllLength(path, Chapters, TranslatedChapters);
    CountZero(path, Chapters);
  }

  /**
   A character that is not in the pattern separates the string into two
   halves that are rewritten independently.
   */
  lemma {:induction false} ReplaceAllSplits(a: string, c: char, b: string, pat: string, rep: string)
    requires |pat| > 0 && c !in pat
    ensures ReplaceAll(a + [c] + b, pat, rep) == ReplaceAll(a, pat, rep) + [c] + ReplaceAll(b, pat, rep)
    decreases |a|
  {
    if |a| == 0 {
      var s := a + [c] + b;
      assert s == [c] + b && s[1..] == b;
      NotInPrefix([c], b, pat, 0);
    } else if OccursAt(a + [c] + b, pat, 0) {
      MatchBeforeSeparator(a, c, b, pat);
      ReplaceAllSplits(a[|pat|..], c, b, pat, rep);
      SplitsAfterMatch(a, c, b, pat, rep);
    } else {
      ReplaceAllSplits(a[1..], c, b, pat, rep);
      SplitsAfterPlain(a, c, b, pat, rep);
    }
  }

  lemma SplitsAfterMatch(a: string, c: char, b: string, pat: string, rep: string)
    requires |pat| > 0 && c !in pat && OccursAt(a + [c] + b, pat, 0)
    requires |pat| <= |a| && OccursAt(a, pat, 0)
    requires (a + [c] + b)[|pat|..] == a[|pat|..] + [c] + b
    requires ReplaceAll(a[|pat|..] + [c] + b, pat, rep) == ReplaceAll(a[|pat|..], pat, rep) + [c] + ReplaceAll(b, pat, rep)
    ensures ReplaceAll(a + [c] + b, pat, rep) == ReplaceAll(a, pat, rep) + [c] + ReplaceAll(b, pat, rep)
  {
  }

  lemma SplitsAfterPlain(a: string, c: char, b: string, pat: string, rep: string)
    requires |pat| > 0 && |a| > 0 && !OccursAt(a + [c] + b, pat, 0)
    requires ReplaceAll(a[1..] + [c] + b, pat, rep) == ReplaceAll(a[1..], pat, rep) + [c] + ReplaceAll(b, pat, rep)
    ensures ReplaceAll(a + [c] + b, pat, rep) == ReplaceAll(a, pat, rep) + [c] + ReplaceAll(b, pat, rep)
  {
    var s := a + [c] + b;
    assert s == a + ([c] + b);
    NoMatchInPrefix(a, [c] + b, pat);
    TailOfGlued(a, c, b);
    ReplaceAllPlain(s, pat, rep);
    ReplaceAllPlain(a, pat, rep);
    ConsAssoc(a[0], ReplaceAll(a[1..], pat, rep), c, ReplaceAll(b, pat, rep));
  }

  lemma NoMatchInPrefix(a: string, x: string, pat: string)
    requires !OccursAt(a + x, pat, 0)
    ensures !OccursAt(a, pat, 0)
  {
    if OccursAt(a, pat, 0) {
      OccursInPrefix(a, x, pat, 0);
    }
  }

  lemma TailOfGlued(a: string, c: char, b: string)
    requires |a| > 0
    ensures (a + [c] + b)[0] == a[0] && (a + [c] + b)[1..] == a[1..] + [c] + b
  {
  }

  lemma ConsAssoc(h: char, x: string, c: char, y: string)
    ensures [h] + (x + [c] + y) == ([h] + x) + [c] + y
  {
  }

  lemma ReplaceAllPlain(s: string, pat: string, rep: string)
    requires |pat| > 0 && |s| > 0 && !OccursAt(s, pat, 0)
    ensures ReplaceAll(s, pat, rep) == [s[0]] + ReplaceAll(s[1..], pat, rep)
  {
  }

  /** An occurrence at the start cannot reach past a separator it does not contain. */
  lemma MatchBeforeSeparator(a: string, c: char, b: string, pat: string)
    requires c !in pat && OccursAt(a + [c] + b, pat, 0)
    ensures |pat| <= |a| && OccursAt(a, pat, 0)
    ensures (a + [c] + b)[|pat|..] == a[|pat|..] + [c] + b
  {
    var s := a + [c] + b;
    assert forall j :: 0 <= j < |pat| ==> pat[j] == s[j];
    assert s[|a|] == c;
    assert s[..|pat|] == a[..|pat|];
  }

  /**
   A quest file under `<root>/chapters/` goes to the same place under
   `<root>/chapters-translate/`, provided neither the root nor the file's
   path below `chapters` mentions `chapters` again.
   */
  lemma QuestFileOutput(root: string, name: string)
    requires !Contains(root, Chapters) && !Contains(name, Chapters)
    ensures OutputPath(root + "/chapters/" + name) == root + "/chapters-translate/" + name
  {
    PathShape(root, name);
    ReplaceAllWithout(root, Chapters, TranslatedChapters);
    ReplaceAllSplits(root, '/', Chapters + ['/'] + name, Chapters, TranslatedChapters);
    ChaptersAtHead(name);
  }

  lemma PathShape(root: string, name: string)
    ensures root + "/chapters/" + name == root + ['/'] + (Chapters + ['/'] + name)
    ensures root + "/chapters-translate/" + name == root + ['/'] + (TranslatedChapters + ['/'] + name)
  {
  }

  lemma ChaptersAtHead(name: string)
    requires !Contains(name, Chapters)
    ensures ReplaceAll(Chapters + ['/'] + name, Chapters, TranslatedChapters) == TranslatedChapters + ['/'] + name
  {
    ReplaceAllSplits(Chapters, '/', name, Chapters, TranslatedChapters);
    ReplaceAllWithout(name, Chapters, TranslatedChapters);
    assert OccursAt(Chapters, Chapters, 0);
    assert Chapters[|Chapters|..] == [];
  }

  /**
   The gaps between the replaced occurrences. The input is these gaps woven
   with copies of the pattern, the output the same gaps woven with copies
   of the replacement, and no gap holds a whole occurrence.
   */
  ghost function ReplaceGaps(s: string, pat: string): (gaps: seq<string>)
    requires |pat| > 0
    ensures |gaps| == Count(s, pat) + 1
    decreases |s|
  {
    if |s| == 0 then [[]]
    else if OccursAt(s, pat, 0) then [[]] + ReplaceGaps(s[|pat|..], pat)
    else
      var g := ReplaceGaps(s[1..], pat);
      [[s[0]] + g[0]] + g[1..]
  }

  /** One character glued in front of a gap that holds no occurrence, where the pattern does not start. */
  lemma ExtendGap(s: string, g: string, pat: string)
    requires |s| > 0 && |pat| > 0 && !OccursAt(s, pat, 0)
    requires |g| <= |s| - 1 && g == s[1..][..|g|] && !Contains(g, pat)
    ensures !Contains([s[0]] + g, pat)
  {
    var x := [s[0]] + g;
    assert x == s[..|x|];
    forall i | 0 <= i <= |x| - |pat| ensures !OccursAt(x, pat, i) {
      if i == 0 {
        assert x[..|pat|] == s[..|pat|];
      } else {
        assert x[i..i + |pat|] == g[i - 1..i - 1 + |pat|];
        assert !OccursAt(g, pat, i - 1);
      }
    }
  }

  /** `str.replace` characterised by the gaps between occurrences. */
  predicate WeavesAt(s: string, pat: string, rep: string, gaps: seq<string>, k: nat)
    requires |pat| > 0
  {
    && |gaps| == k + 1
    && s == Weave(gaps, Copies(pat, k))
    && ReplaceAll(s, pat, rep) == Weave(gaps, Copies(rep, k))
    && forall i :: 0 <= i < |gaps| ==> !Contains(gaps[i], pat)
  }

  lemma {:induction false} ReplaceAllWeaves(s: string, pat: string, rep: string)
    requires |pat| > 0
    ensures WeavesAt(s, pat, rep, ReplaceGaps(s, pat), Count(s, pat))
    decreases |s|
  {
    if |s| == 0 {
      assert !Contains([], pat);
    } else if OccursAt(s, pat, 0) {
      ReplaceAllWeaves(s[|pat|..], pat, rep);
      WeavesAfterMatch(s, pat, rep, ReplaceGaps(s[|pat|..], pat), Count(s[|pat|..], pat));
    } else {
      ReplaceAllWeaves(s[1..], pat, rep);
      WeavesAfterPlain(s, pat, rep, ReplaceGaps(s[1..], pat), Count(s[1..], pat));
    }
  }

  lemma WeavesAfterMatch(s: string, pat: string, rep: string, gs: seq<string>, k: nat)
    requires |pat| > 0 && |s| > 0 && OccursAt(s, pat, 0)
    requires WeavesAt(s[|pat|..], pat, rep, gs, k)
    ensures WeavesAt(s, pat, rep, [[]] + gs, k + 1)
  {
    var gaps := [[]] + gs;
    assert gaps[1..] == gs;
    CopiesCons(pat, k);
    CopiesCons(rep, k);
    assert s == pat + s[|pat|..];
    assert !Contains([], pat);
    forall i | 0 <= i < |gaps| ensures !Contains(gaps[i], pat) {
      if i > 0 {
        assert gaps[i] == gs[i - 1];
      }
    }
  }

  lemma WeavesAfterPlain(s: string, pat: string, rep: string, g: seq<string>, k: nat)
    requires |pat| > 0 && |s| > 0 && !OccursAt(s, pat, 0)
    requires WeavesAt(s[1..], pat, rep, g, k)
    ensures WeavesAt(s, pat, rep, [[s[0]] + g[0]] + g[1..], k)
  {
    var gaps := [[s[0]] + g[0]] + g[1..];
    WeaveStartsWithFirstGap(g, Copies(pat, k));
    assert g[0] == s[1..][..|g[0]|];
    ExtendGap(s, g[0], pat);
    WeavePrefix([s[0]], g, Copies(pat, k));
    WeavePrefix([s[0]], g, Copies(rep, k));
    assert s == [s[0]] + s[1..];
    forall i | 0 <= i < |gaps| ensures !Contains(gaps[i], pat) {
      if i > 0 {
        assert gaps[i] == g[i];
      }
    }
  }
}
