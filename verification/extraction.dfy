/**
 Step 1 of `safe_translate`: formatting codes such as `&4`, `&e` or `&r`
 (regular expression `&[0-9a-zA-Z]+`) are collected with `re.findall` and,
 in a second scan with `re.sub`, replaced by the numbered placeholders
 `<<<1>>>`, `<<<2>>>`, ...  Both scans are modelled as written and proved to
 cut the text at the same places.
 */
module Extraction {
  import opened Text

  /** The character class `[0-9a-zA-Z]` (ASCII only, unlike `\w`). */
  predicate IsAlnum(c: char)
  {
    '0' <= c <= '9' || 'a' <= c <= 'z' || 'A' <= c <= 'Z'
  }

  /** A whole match of `&[0-9a-zA-Z]+`. */
  predicate IsCode(c: string)
  {
    |c| >= 2 && c[0] == '&' && forall j :: 1 <= j < |c| ==> IsAlnum(c[j])
  }

  /** The pattern can start matching at index `j` of `s`. */
  predicate CodeStartsAt(s: string, j: int)
  {
    0 <= j && j + 1 < |s| && s[j] == '&' && IsAlnum(s[j + 1])
  }

  /** Somewhere in `s` an `&` is followed by an ASCII letter or digit. */
  predicate HasCodeStart(s: string)
  {
    exists j :: 0 <= j < |s| && CodeStartsAt(s, j)
  }

  lemma CodeStartsAtTail(s: string, j: int)
    requires |s| > 0 && j >= 0
    ensures CodeStartsAt(s[1..], j) <==> CodeStartsAt(s, j + 1)
  {
  }

  /** Length of the run of alphanumerics at the start of `s`. */
  function AlnumRun(s: string): (n: nat)
    ensures n <= |s|
    ensures forall j :: 0 <= j < n ==> IsAlnum(s[j])
    ensures n == |s| || !IsAlnum(s[n])
    decreases |s|
  {
    if |s| == 0 || !IsAlnum(s[0]) then 0 else 1 + AlnumRun(s[1..])
  }

  /**
   Length of the code matched at the start of `s`, or 0 when none starts
   there. The `+` is greedy, so the code takes every following alphanumeric.
   */
  function CodeLength(s: string): (n: nat)
    ensures n == 0 <==> !CodeStartsAt(s, 0)
    ensures n > 0 ==> n <= |s| && IsCode(s[..n]) && (n == |s| || !IsAlnum(s[n]))
  {
    if CodeStartsAt(s, 0) then
      var n := 1 + AlnumRun(s[1..]);
      assert forall j :: 1 <= j < n ==> s[..n][j] == s[1..][j - 1];
      n
    else 0
  }

  /** The placeholder `<<<n>>>` (an f-string of the counter). */
  function Placeholder(n: nat): (p: string)
    ensures |p| >= 7 && p[..3] == "<<<" && p[|p| - 3..] == ">>>"
    ensures p[0] == '<'
  {
    "<<<" + Decimal(n) + ">>>"
  }

  /** `re.findall(r'(&[0-9a-zA-Z]+)', text)`: the codes, left to right. */
  function FindCodes(text: string): (codes: seq<string>)
    ensures forall i :: 0 <= i < |codes| ==> IsCode(codes[i])
    ensures codes == [] <==> !HasCodeStart(text)
    decreases |text|
  {
    if |text| == 0 then []
    else
      var k := CodeLength(text);
      if k > 0 then
        assert CodeStartsAt(text, 0);
        [text[..k]] + FindCodes(text[k..])
      else
        HasCodeStartTail(text);
        FindCodes(text[1..])
  }

  /** Past a first character where no code starts, the codes start exactly where they start in the rest. */
  lemma HasCodeStartTail(text: string)
    requires |text| > 0 && !CodeStartsAt(text, 0)
    ensures HasCodeStart(text) <==> HasCodeStart(text[1..])
  {
    if HasCodeStart(text) {
      var j :| 0 <= j < |text| && CodeStartsAt(text, j);
      CodeStartsAtTail(text, j - 1);
    }
    if HasCodeStart(text[1..]) {
      var j :| 0 <= j < |text[1..]| && CodeStartsAt(text[1..], j);
      CodeStartsAtTail(text, j);
    }
  }

  /**
   `re.sub(r'(&[0-9a-zA-Z]+)', repl, text)` where `repl` returns
   `<<<count>>>` and then increments `count`, which starts at `n`.
   */
  function Substitute(text: string, n: nat): (cleaned: string)
    ensures !HasCodeStart(text) ==> cleaned == text
    decreases |text|
  {
    if |text| == 0 then []
    else
      var k := CodeLength(text);
      if k > 0 then Placeholder(n) + Substitute(text[k..], n + 1)
      else
        HasCodeStartTail(text);
        [text[0]] + Substitute(text[1..], n)
  }

  /** The placeholder numbers handed out to `k` codes when counting starts at `n`. */
  function Numbers(n: nat, k: nat): (r: seq<nat>)
    ensures |r| == k && forall i :: 0 <= i < k ==> r[i] == n + i
    decreases k
  {
    if k == 0 then [] else [n] + Numbers(n + 1, k - 1)
  }

  /** The placeholders spelled for a list of numbers. */
  function Tags(idx: seq<nat>): (r: seq<string>)
    ensures |r| == |idx| && forall i :: 0 <= i < |idx| ==> r[i] == Placeholder(idx[i])
    decreases |idx|
  {
    if |idx| == 0 then [] else [Placeholder(idx[0])] + Tags(idx[1..])
  }

  /**
   How a text is cut by the code pattern: the text is gaps and codes
   interleaved, every code a whole match, no match can start inside a gap,
   and no code could have been extended (the character after it is not
   alphanumeric).
   */
  ghost predicate IsCodeSplit(text: string, gaps: seq<string>, codes: seq<string>)
  {
    && |gaps| == |codes| + 1
    && text == Weave(gaps, codes)
    && (forall i :: 0 <= i < |codes| ==> IsCode(codes[i]))
    && (forall i :: 0 <= i < |gaps| ==> !HasCodeStart(gaps[i]))
    && (forall i :: 1 <= i < |gaps| ==> gaps[i] == [] || !IsAlnum(gaps[i][0]))
  }

  /** The text between the codes, as the two scans see it. */
  ghost function CodeGaps(text: string): (gaps: seq<string>)
    ensures |gaps| == |FindCodes(text)| + 1
    decreases |text|
  {
    if |text| == 0 then [""]
    else
      var k := CodeLength(text);
      if k > 0 then [""] + CodeGaps(text[k..])
      else
        var g := CodeGaps(text[1..]);
        [[text[0]] + g[0]] + g[1..]
  }

  /**
   Both scans of `safe_translate` cut the text at the same places: the codes
   `re.findall` returns are exactly the pieces between the gaps, in order, and
   `re.sub` puts the placeholders `<<<n>>>`, `<<<n+1>>>`, ... in their places
   and leaves every gap as it was.
   */
  lemma {:induction false} ExtractSplits(text: string, n: nat)
    ensures IsCodeSplit(text, CodeGaps(text), FindCodes(text))
    ensures Substitute(text, n) == Weave(CodeGaps(text), Tags(Numbers(n, |FindCodes(text)|)))
    decreases |text|
  {
    if |text| == 0 {
      assert !HasCodeStart(CodeGaps(text)[0]);
    } else if CodeLength(text) > 0 {
      var k := CodeLength(text);
      ExtractSplits(text[k..], n + 1);
      SplitAfterCode(text, k, text[k..]);
      SubstituteAfterCode(text, n, k, text[k..]);
    } else {
      ExtractSplits(text[1..], n);
      SplitAfterPlain(text);
      SubstituteAfterPlain(text, n);
    }
  }

  /** The step of `ExtractSplits` where a code starts the text. */
  lemma SplitAfterCode(text: string, k: nat, rest: string)
    requires k == CodeLength(text) > 0 && rest == text[k..]
    requires IsCodeSplit(rest, CodeGaps(rest), FindCodes(rest))
    ensures IsCodeSplit(text, CodeGaps(text), FindCodes(text))
  {
    var code, g, cs := text[..k], CodeGaps(rest), FindCodes(rest);
    CodeThenSplit(text, k, rest, g, cs);
    ScanCode(text, k);
    SplitTransport(text, CodeGaps(text), FindCodes(text), [""] + g, [code] + cs);
  }

  /** A code followed by a split text is a split text. */
  lemma CodeThenSplit(text: string, k: nat, rest: string, g: seq<string>, cs: seq<string>)
    requires k == CodeLength(text) > 0 && rest == text[k..]
    requires IsCodeSplit(rest, g, cs)
    ensures IsCodeSplit(text, [""] + g, [text[..k]] + cs)
  {
    assert text == text[..k] + rest;
    PrependCode(text[..k], rest, g, cs);
  }

  lemma SplitTransport(text: string, gaps: seq<string>, codes: seq<string>, gaps': seq<string>, codes': seq<string>)
    requires IsCodeSplit(text, gaps', codes') && gaps == gaps' && codes == codes'
    ensures IsCodeSplit(text, gaps, codes)
  {
  }

  /** Both scans, when a code starts the text: take it whole and go on after it. */
  lemma ScanCode(text: string, k: nat)
    requires k == CodeLength(text) > 0
    ensures FindCodes(text) == [text[..k]] + FindCodes(text[k..])
    ensures CodeGaps(text) == [""] + CodeGaps(text[k..])
  {
  }

  /** Both scans, when no code starts the text: keep its first character and go on. */
  lemma ScanPlain(text: string)
    requires |text| > 0 && CodeLength(text) == 0
    ensures FindCodes(text) == FindCodes(text[1..])
    ensures CodeGaps(text) == [[text[0]] + CodeGaps(text[1..])[0]] + CodeGaps(text[1..])[1..]
  {
  }

  lemma SubstituteAfterCode(text: string, n: nat, k: nat, rest: string)
    requires k == CodeLength(text) > 0 && rest == text[k..]
    requires Substitute(rest, n + 1) == Weave(CodeGaps(rest), Tags(Numbers(n + 1, |FindCodes(rest)|)))
    ensures Substitute(text, n) == Weave(CodeGaps(text), Tags(Numbers(n, |FindCodes(text)|)))
  {
    ScanCode(text, k);
    PrependPlaceholder(n, CodeGaps(rest), Tags(Numbers(n + 1, |FindCodes(rest)|)));
  }

  lemma PrependPlaceholder(n: nat, g: seq<string>, tags: seq<string>)
    requires |g| == |tags| + 1 && tags == Tags(Numbers(n + 1, |tags|))
    ensures Placeholder(n) + Weave(g, tags) == Weave([""] + g, Tags(Numbers(n, |tags| + 1)))
  {
    var tags0 := Tags(Numbers(n, |tags| + 1));
    assert tags0 == [Placeholder(n)] + tags;
    assert ([""] + g)[1..] == g && tags0[1..] == tags;
  }

  /** A split of `rest` extends to a split of `code + rest` when `rest` does not continue the code. */
  lemma PrependCode(code: string, rest: string, g: seq<string>, cs: seq<string>)
    requires IsCode(code) && (rest == [] || !IsAlnum(rest[0]))
    requires IsCodeSplit(rest, g, cs)
    ensures IsCodeSplit(code + rest, [""] + g, [code] + cs)
  {
    var gaps, codes := [""] + g, [code] + cs;
    assert gaps[1..] == g && codes[1..] == cs;
    assert Weave(gaps, codes) == code + rest;
    if g[0] != [] {
      WeaveStartsWithFirstGap(g, cs);
      assert g[0][0] == rest[0];
    }
    forall i | 1 <= i < |gaps| ensures gaps[i] == [] || !IsAlnum(gaps[i][0]) {
      assert gaps[i] == g[i - 1];
    }
    forall i | 0 <= i < |gaps| ensures !HasCodeStart(gaps[i]) {
      if i > 0 {
        assert gaps[i] == g[i - 1];
      }
    }
    forall i | 0 <= i < |codes| ensures IsCode(codes[i]) {
      if i > 0 {
        assert codes[i] == cs[i - 1];
      }
    }
  }

  /** The step of `ExtractSplits` where no code starts the text. */
  lemma SplitAfterPlain(text: string)
    requires |text| > 0 && CodeLength(text) == 0
    requires IsCodeSplit(text[1..], CodeGaps(text[1..]), FindCodes(text[1..]))
    ensures IsCodeSplit(text, CodeGaps(text), FindCodes(text))
  {
    ScanPlain(text);
    PrependPlain(text, CodeGaps(text[1..]), FindCodes(text[1..]));
  }

  /** A split of the tail extends to the whole text by growing the first gap, when no code starts the text. */
  lemma PrependPlain(text: string, g: seq<string>, cs: seq<string>)
    requires |text| > 0 && CodeLength(text) == 0
    requires IsCodeSplit(text[1..], g, cs)
    ensures IsCodeSplit(text, [[text[0]] + g[0]] + g[1..], cs)
  {
    var gaps := [[text[0]] + g[0]] + g[1..];
    WeavePrefix([text[0]], g, cs);
    assert text == [text[0]] + text[1..];
    FirstGapGrows(text, g, cs);
    forall i | 1 <= i < |gaps| ensures !HasCodeStart(gaps[i]) && (gaps[i] == [] || !IsAlnum(gaps[i][0])) {
      assert gaps[i] == g[i];
    }
  }

  /** The first gap grown by one character in front, where no code starts, still has no code start in it. */
  lemma FirstGapGrows(text: string, g: seq<string>, cs: seq<string>)
    requires |text| > 0 && CodeLength(text) == 0
    requires IsCodeSplit(text[1..], g, cs)
    ensures !HasCodeStart([text[0]] + g[0])
  {
    var g0 := [text[0]] + g[0];
    forall j | 0 <= j < |g0| ensures !CodeStartsAt(g0, j) {
      if j == 0 {
        if 1 < |g0| {
          WeaveStartsWithFirstGap(g, cs);
          assert g0[1] == text[1];
        }
      } else {
        CodeStartsAtTail(g0, j - 1);
        assert g0[1..] == g[0];
      }
    }
  }

  lemma SubstituteAfterPlain(text: string, n: nat)
    requires |text| > 0 && CodeLength(text) == 0
    requires Substitute(text[1..], n) == Weave(CodeGaps(text[1..]), Tags(Numbers(n, |FindCodes(text[1..])|)))
    ensures Substitute(text, n) == Weave(CodeGaps(text), Tags(Numbers(n, |FindCodes(text)|)))
  {
    ScanPlain(text);
    WeavePrefix([text[0]], CodeGaps(text[1..]), Tags(Numbers(n, |FindCodes(text)|)));
  }
}
