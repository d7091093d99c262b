/**
 String vocabulary shared by the model of the quest translator: an Option
 type, substring occurrences, the "weave" of gaps and inserted pieces that
 every scanner of the program produces, and Python's decimal rendering of a
 natural number (used to spell placeholders).
 */
module Text {

  datatype Option<+T> = None | Some(value: T)

  /** `pat` occurs in `s` starting at index `i`. */
  predicate OccursAt(s: string, pat: string, i: int)
  {
    0 <= i && i + |pat| <= |s| && s[i..i + |pat|] == pat
  }

  /** `pat` occurs somewhere in `s` (Python's `pat in s`). */
  predicate Contains(s: string, pat: string)
  {
    exists i :: 0 <= i <= |s| - |pat| && OccursAt(s, pat, i)
  }

  /** `k` is the leftmost occurrence of `pat` in `s` (what `str.find` reports). */
  predicate IsFirstOccurrence(s: string, pat: string, k: int)
  {
    OccursAt(s, pat, k) && forall j :: 0 <= j < k ==> !OccursAt(s, pat, j)
  }

  lemma OccursAtTail(s: string, pat: string, k: int)
    requires |s| > 0 && k >= 0
    ensures OccursAt(s[1..], pat, k) <==> OccursAt(s, pat, k + 1)
  {
    if k + 1 + |pat| <= |s| {
      assert s[1..][k..k + |pat|] == s[k + 1..k + 1 + |pat|];
    }
  }

  /** Occurrences past a prefix are the occurrences in what follows it, shifted. */
  lemma OccursAfter(a: string, x: string, pat: string, i: int)
    requires |a| <= i
    ensures OccursAt(a + x, pat, i) <==> OccursAt(x, pat, i - |a|)
  {
    if i + |pat| <= |a| + |x| {
      assert (a + x)[i..i + |pat|] == x[i - |a|..i - |a| + |pat|];
    }
  }

  /** An occurrence inside a prefix is an occurrence in the whole. */
  lemma OccursInPrefix(a: string, x: string, pat: string, i: int)
    requires OccursAt(a, pat, i)
    ensures OccursAt(a + x, pat, i)
  {
    assert (a + x)[i..i + |pat|] == a[i..i + |pat|];
  }

  /** A pattern cannot start inside a prefix that lacks its first character. */
  lemma NotInPrefix(a: string, x: string, pat: string, i: int)
    requires |pat| > 0 && pat[0] !in a && 0 <= i < |a|
    ensures !OccursAt(a + x, pat, i)
  {
    if i + |pat| <= |a| + |x| {
      assert (a + x)[i..i + |pat|][0] == a[i];
    }
  }

  /** Python's `str.find(pat)`: the index of the leftmost occurrence, if any. */
  function Find(s: string, pat: string): (r: Option<nat>)
    ensures r.Some? ==> IsFirstOccurrence(s, pat, r.value)
    ensures r.None? ==> !Contains(s, pat)
    decreases |s|
  {
    if |pat| <= |s| && s[..|pat|] == pat then
      assert OccursAt(s, pat, 0);
      Some(0)
    else if |s| <= |pat| then
      assert forall i :: !OccursAt(s, pat, i) by {
        forall i | 0 <= i && i + |pat| <= |s| ensures !OccursAt(s, pat, i) {
          assert i == 0;
        }
      }
      None
    else
      var rest := Find(s[1..], pat);
      forall j | 1 <= j ensures OccursAt(s[1..], pat, j - 1) <==> OccursAt(s, pat, j) {
        OccursAtTail(s, pat, j - 1);
      }
      assert !OccursAt(s, pat, 0);
      match rest
      case Some(k) => Some(k + 1)
      case None =>
        assert forall i :: 1 <= i ==> !OccursAt(s, pat, i);
        None
  }

  /**
   The text `gaps[0] + items[0] + gaps[1] + ... + items[n-1] + gaps[n]`:
   a string cut into untouched gaps and the pieces found between them.
   */
  function Weave(gaps: seq<string>, items: seq<string>): string
    requires |gaps| == |items| + 1
    decreases |items|
  {
    if |items| == 0 then gaps[0]
    else gaps[0] + items[0] + Weave(gaps[1..], items[1..])
  }

  /** Every character of every gap, and of every item, is a character of the weave. */
  lemma {:induction false} WeaveHasParts(gaps: seq<string>, items: seq<string>)
    requires |gaps| == |items| + 1
    ensures forall i, c :: 0 <= i < |gaps| && c in gaps[i] ==> c in Weave(gaps, items)
    ensures forall i, c :: 0 <= i < |items| && c in items[i] ==> c in Weave(gaps, items)
    decreases |items|
  {
    if |items| > 0 {
      WeaveHasParts(gaps[1..], items[1..]);
      var w := Weave(gaps, items);
      assert w == gaps[0] + items[0] + Weave(gaps[1..], items[1..]);
      forall i, c | 0 <= i < |gaps| && c in gaps[i] ensures c in w {
        if i > 0 {
          assert gaps[i] == gaps[1..][i - 1];
        }
      }
      forall i, c | 0 <= i < |items| && c in items[i] ensures c in w {
        if i > 0 {
          assert items[i] == items[1..][i - 1];
        }
      }
    }
  }

  /** The first gap is a prefix of the weave. */
  lemma WeaveStartsWithFirstGap(gaps: seq<string>, items: seq<string>)
    requires |gaps| == |items| + 1
    ensures |gaps[0]| <= |Weave(gaps, items)|
    ensures Weave(gaps, items) == gaps[0] + Weave(gaps, items)[|gaps[0]|..]
  {
    if |items| > 0 {
      assert Weave(gaps, items) == gaps[0] + (items[0] + Weave(gaps[1..], items[1..]));
    }
  }

  /** Gluing a prefix onto the weave is the same as gluing it onto its first gap. */
  lemma {:induction false} WeavePrefix(pre: string, gaps: seq<string>, items: seq<string>)
    requires |gaps| == |items| + 1
    ensures pre + Weave(gaps, items) == Weave([pre + gaps[0]] + gaps[1..], items)
  {
    var gaps' := [pre + gaps[0]] + gaps[1..];
    assert gaps'[1..] == gaps[1..];
  }

  /** A weave cut open at its `p`-th item. */
  lemma {:induction false} WeaveAt(gaps: seq<string>, items: seq<string>, p: nat)
    requires |gaps| == |items| + 1 && p < |items|
    ensures Weave(gaps, items) == Weave(gaps[..p + 1], items[..p]) + items[p] + Weave(gaps[p + 1..], items[p + 1..])
    decreases p
  {
    if p > 0 {
      var g', i' := gaps[1..], items[1..];
      WeaveAt(g', i', p - 1);
      var g0, i0 := gaps[..p + 1], items[..p];
      assert Weave(g0, i0) == g0[0] + i0[0] + Weave(g0[1..], i0[1..]);
      assert g0[1..] == g'[..p] && i0[1..] == i'[..p - 1];
      assert g'[p..] == gaps[p + 1..] && i'[p..] == items[p + 1..] && i'[p - 1] == items[p];
    } else {
      assert gaps[..1] == [gaps[0]] && items[..0] == [];
      assert gaps[1..] == gaps[p + 1..] && items[1..] == items[p + 1..];
    }
  }

  /** `WeaveAt`, with the two halves of the items named. */
  lemma WeaveCut(gaps: seq<string>, items: seq<string>, before: seq<string>, after: seq<string>, p: nat)
    requires |gaps| == |items| + 1 && p < |items|
    requires before == items[..p] && after == items[p + 1..]
    ensures Weave(gaps, items) == Weave(gaps[..p + 1], before) + (items[p] + Weave(gaps[p + 1..], after))
  {
    WeaveAt(gaps, items, p);
  }

  /** `k` copies of the string `x`. */
  function Copies(x: string, k: nat): seq<string>
  {
    seq(k, _ => x)
  }

  /** One more copy is one copy in front of the others. */
  lemma CopiesCons(x: string, k: nat)
    ensures Copies(x, k + 1) == [x] + Copies(x, k)
  {
    var a, b := Copies(x, k + 1), [x] + Copies(x, k);
    assert |a| == |b|;
    forall i | 0 <= i < |a| ensures a[i] == b[i] {
      if i > 0 {
        assert b[i] == Copies(x, k)[i - 1];
      }
    }
  }

  predicate IsDigit(c: char)
  {
    '0' <= c <= '9'
  }

  predicate AllDigits(s: string)
  {
    forall i :: 0 <= i < |s| ==> IsDigit(s[i])
  }

  function DigitChar(d: nat): (c: char)
    requires d < 10
    ensures IsDigit(c) && c as int - '0' as int == d
  {
    (d + '0' as int) as char
  }

  /** Python's `str(n)` for a natural number: decimal, no leading zeros. */
  function Decimal(n: nat): (s: string)
    ensures |s| >= 1 && AllDigits(s)
    ensures |s| > 1 ==> s[0] != '0'
    decreases n
  {
    if n < 10 then [DigitChar(n)] else Decimal(n / 10) + [DigitChar(n % 10)]
  }

  /** Reads a string of decimal digits back as a number. */
  function ParseDecimal(s: string): nat
    requires AllDigits(s)
    decreases |s|
  {
    if |s| == 0 then 0
    else ParseDecimal(s[..|s| - 1]) * 10 + (s[|s| - 1] as int - '0' as int)
  }

  lemma {:induction false} ParseDecimalInverts(n: nat)
    ensures ParseDecimal(Decimal(n)) == n
    decreases n
  {
    if n >= 10 {
      var s := Decimal(n);
      assert s[..|s| - 1] == Decimal(n / 10);
      ParseDecimalInverts(n / 10);
    }
  }

  /** Distinct numbers have distinct decimal spellings. */
  lemma DecimalInjective(m: nat, n: nat)
    ensures Decimal(m) == Decimal(n) ==> m == n
  {
    ParseDecimalInverts(m);
    ParseDecimalInverts(n);
  }
}
