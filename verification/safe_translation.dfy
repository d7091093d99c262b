/**
 `safe_translate`: extract the codes, translate the cleaned text, then put
 the codes back. The translation model is an arbitrary total function on
 strings; restoration replaces, for i = 1, 2, ..., only the FIRST occurrence
 of `<<<i>>>` with the i-th code (`str.replace(placeholder, code, 1)`).
 */
module SafeTranslation {
  import opened Text
  import opened Extraction

  /** Python's `s.replace(pat, rep, 1)`. */
  function ReplaceFirst(s: string, pat: string, rep: string): (r: string)
    ensures !Contains(s, pat) ==> r == s
    ensures forall k :: IsFirstOccurrence(s, pat, k) ==> r == s[..k] + rep + s[k + |pat|..]
  {
    match Find(s, pat)
    case None => s
    case Some(k) => s[..k] + rep + s[k + |pat|..]
  }

  /**
   The restoring loop, from placeholder number `n` on: the first remaining
   `<<<n>>>` becomes `codes[0]`, then `<<<n+1>>>` becomes `codes[1]`, and so
   on. A placeholder that is not there is skipped and its code is lost.
   */
  function Restore(t: string, codes: seq<string>, n: nat): string
    decreases |codes|
  {
    if |codes| == 0 then t
    else Restore(ReplaceFirst(t, Placeholder(n), codes[0]), codes[1..], n + 1)
  }

  /**
   `safe_translate(text, lang_to)` with the model call `translate_to(., lang_to)`
   given as the function `translate`; placeholder numbering starts at 1 on
   every call.
   */
  function SafeTranslate(translate: string -> string, text: string): (r: string)
    ensures !HasCodeStart(text) ==> r == translate(text)
  {
    Restore(translate(Substitute(text, 1)), FindCodes(text), 1)
  }

  lemma PlaceholderShape(n: nat)
    ensures var p, d := Placeholder(n), Decimal(n);
      && |p| == |d| + 6
      && p[0] == '<' && p[1] == '<' && p[2] == '<'
      && (forall t :: 0 <= t < |d| ==> p[3 + t] == d[t])
      && p[|d| + 3] == '>' && p[|d| + 4] == '>' && p[|d| + 5] == '>'
  {
  }

  /**
   `<<<m>>>` cannot be found starting anywhere in `a + <<<n>>>` for m != n,
   whatever follows: placeholders do not overlap one another.
   */
  lemma PlaceholderMismatch(m: nat, n: nat, a: string, b: string)
    requires m != n && '<' !in a
    ensures forall i :: 0 <= i < |a| + |Placeholder(n)| ==> !OccursAt(a + Placeholder(n) + b, Placeholder(m), i)
  {
    var x, pm, pn := Placeholder(n) + b, Placeholder(m), Placeholder(n);
    assert a + pn + b == a + x;
    forall i | 0 <= i < |a| ensures !OccursAt(a + x, pm, i) {
      NotInPrefix(a, x, pm, i);
    }
    assert x[..|pn|] == pn;
    forall i | |a| <= i < |a| + |pn| ensures !OccursAt(a + x, pm, i) {
      MismatchOffset(m, n, x, i - |a|);
      OccursAfter(a, x, pm, i);
    }
  }

  /** Within a placeholder `<<<n>>>` at the start of `x`, no other placeholder starts. */
  lemma MismatchOffset(m: nat, n: nat, x: string, d: nat)
    requires m != n && |Placeholder(n)| <= |x| && x[..|Placeholder(n)|] == Placeholder(n)
    requires d < |Placeholder(n)|
    ensures !OccursAt(x, Placeholder(m), d)
  {
    if d == 0 {
      MismatchAtStart(m, n, x);
    } else {
      MismatchInside(m, n, x, d);
    }
  }

  /** A placeholder cannot start inside another one: its `<` would have to sit on a digit or a `>`. */
  lemma MismatchInside(m: nat, n: nat, x: string, d: nat)
    requires |Placeholder(n)| <= |x| && x[..|Placeholder(n)|] == Placeholder(n)
    requires 0 < d < |Placeholder(n)|
    ensures !OccursAt(x, Placeholder(m), d)
  {
    var pm, pn := Placeholder(m), Placeholder(n);
    PlaceholderInside(n);
    if d + |pm| <= |x| {
      var w := x[d..d + |pm|];
      if d < 3 {
        assert pm[3 - d] == '<' by {
          assert pm[..3][3 - d] == '<';
        }
        assert w[3 - d] == x[3] == pn[3];
      } else {
        assert w[0] == x[d] == pn[d];
      }
    }
  }

  /** Past its opening `<<<`, a placeholder holds no `<`, and its fourth character is a digit. */
  lemma PlaceholderInside(n: nat)
    ensures var p := Placeholder(n);
      && IsDigit(p[3])
      && forall t :: 3 <= t < |p| ==> p[t] != '<'
  {
    var p, d := Placeholder(n), Decimal(n);
    assert p == "<<<" + d + ">>>";
    assert p[3] == d[0];
    forall t | 3 <= t < |p| ensures p[t] != '<' {
      if t < 3 + |d| {
        assert p[t] == d[t - 3];
        assert IsDigit(d[t - 3]);
      } else {
        assert p[t] == ">>>"[t - 3 - |d|];
      }
    }
  }

  /** Two different placeholders differ in their digits or in where the digits end. */
  lemma MismatchAtStart(m: nat, n: nat, x: string)
    requires m != n && |Placeholder(n)| <= |x| && x[..|Placeholder(n)|] == Placeholder(n)
    ensures !OccursAt(x, Placeholder(m), 0)
  {
    var pm, pn := Placeholder(m), Placeholder(n);
    var dm, dn := Decimal(m), Decimal(n);
    PlaceholderShape(m);
    PlaceholderShape(n);
    if |pm| <= |x| {
      var w := x[..|pm|];
      if |dm| < |dn| {
        assert w[3 + |dm|] == x[3 + |dm|] == pn[3 + |dm|] == dn[|dm|];
        assert IsDigit(dn[|dm|]);
      } else if |dm| > |dn| {
        assert w[3 + |dn|] == x[3 + |dn|] == pn[3 + |dn|] == '>';
        assert IsDigit(dm[|dn|]);
      } else {
        DecimalInjective(m, n);
        var t :| 0 <= t < |dm| && dm[t] != dn[t];
        assert w[3 + t] == x[3 + t] == pn[3 + t] == dn[t];
      }
    }
  }

  /**
   What sits between two gaps of the text while the codes are being put
   back: a placeholder still waiting for its code, or a code already restored.
   */
  datatype Slot = Waiting(number: nat) | Restored(code: string)

  function SlotText(slot: Slot): string
  {
    match slot
    case Waiting(j) => Placeholder(j)
    case Restored(c) => c
  }

  function SlotTexts(slots: seq<Slot>): seq<string>
  {
    seq(|slots|, i requires 0 <= i < |slots| => SlotText(slots[i]))
  }

  /** Every slot waits for a placeholder number of its own. */
  function Waits(idx: seq<nat>): seq<Slot>
  {
    seq(|idx|, i requires 0 <= i < |idx| => Waiting(idx[i]))
  }

  /** `idx` holds distinct numbers, each in `n .. n + k - 1`. */
  predicate Arrangement(idx: seq<nat>, n: nat, k: nat)
  {
    && (forall i :: 0 <= i < |idx| ==> n <= idx[i] < n + k)
    && (forall i, j :: 0 <= i < j < |idx| ==> idx[i] != idx[j])
  }

  /** No restored code contains `<`, so none can become part of a placeholder. */
  predicate RestoredClean(slots: seq<Slot>)
  {
    forall i :: 0 <= i < |slots| && slots[i].Restored? ==> '<' !in slots[i].code
  }

  /** Slot `i` waits, and no slot before it waits for the same number. */
  predicate FirstWaiting(slots: seq<Slot>, i: nat)
    requires i < |slots|
  {
    slots[i].Waiting? && forall k :: 0 <= k < i ==> slots[k] != slots[i]
  }

  /**
   What slot `i` holds once the loop has run with `codes` from number `n`
   on: the first slot waiting for a number in `n .. n + |codes| - 1` gets
   that number's code; every other slot keeps its text, so a repeated
   placeholder and one numbered out of range stay placeholder text.
   */
  function FilledSlot(slots: seq<Slot>, codes: seq<string>, n: nat, i: nat): string
    requires i < |slots|
  {
    if slots[i].Waiting? && n <= slots[i].number < n + |codes| && FirstWaiting(slots, i)
    then codes[slots[i].number - n]
    else SlotText(slots[i])
  }

  function Filled(slots: seq<Slot>, codes: seq<string>, n: nat): seq<string>
  {
    seq(|slots|, i requires 0 <= i < |slots| => FilledSlot(slots, codes, n, i))
  }

  /** The first slot waiting for `<<<n>>>`, if any: where the loop's search for `<<<n>>>` stops. */
  function FindWaiting(slots: seq<Slot>, n: nat): (r: Option<nat>)
    ensures r.Some? ==> (r.value < |slots| && slots[r.value] == Waiting(n)
      && forall k :: 0 <= k < r.value ==> slots[k] != Waiting(n))
    ensures r.None? ==> forall k :: 0 <= k < |slots| ==> slots[k] != Waiting(n)
    decreases |slots|
  {
    if |slots| == 0 then None
    else if slots[0] == Waiting(n) then Some(0)
    else
      match FindWaiting(slots[1..], n)
      case Some(p) => Some(p + 1)
      case None => None
  }

  /** The code that the placeholder `<<<j>>>` stands for is `codes[j - n]`. */
  function Pick(idx: seq<nat>, codes: seq<string>, n: nat): seq<string>
    requires forall i :: 0 <= i < |idx| ==> n <= idx[i] < n + |codes|
  {
    seq(|idx|, i requires 0 <= i < |idx| => codes[idx[i] - n])
  }

  /** One round of the restoring loop. */
  lemma RestoreStep(t: string, codes: seq<string>, n: nat)
    requires |codes| > 0
    ensures Restore(t, codes, n) == Restore(ReplaceFirst(t, Placeholder(n), codes[0]), codes[1..], n + 1)
  {
  }

  /** `<<<m>>>` starts nowhere inside a `<`-free gap followed by a slot that does not wait for `m`. */
  lemma SlotAvoids(m: nat, g: string, slot: Slot, x: string)
    requires '<' !in g && slot != Waiting(m)
    requires slot.Restored? ==> '<' !in slot.code
    ensures forall i :: 0 <= i < |g + SlotText(slot)| ==> !OccursAt(g + SlotText(slot) + x, Placeholder(m), i)
  {
    var pm := Placeholder(m);
    match slot
    case Waiting(j) =>
      PlaceholderMismatch(m, j, g, x);
    case Restored(c) =>
      var a := g + c;
      assert '<' !in a;
      forall i | 0 <= i < |a| ensures !OccursAt(a + x, pm, i) {
        NotInPrefix(a, x, pm, i);
      }
  }

  /** The weave of a gap, a slot and the rest, regrouped. */
  lemma SlotsCons(gaps: seq<string>, slots: seq<Slot>, rest: string)
    requires |gaps| == |slots| + 1 && |slots| > 0
    ensures Weave(gaps, SlotTexts(slots)) + rest
      == gaps[0] + SlotText(slots[0]) + (Weave(gaps[1..], SlotTexts(slots[1..])) + rest)
    ensures |Weave(gaps, SlotTexts(slots))| == |gaps[0] + SlotText(slots[0])| + |Weave(gaps[1..], SlotTexts(slots[1..]))|
  {
    var items := SlotTexts(slots);
    assert items[1..] == SlotTexts(slots[1..]);
  }

  /**
   `<<<m>>>` starts nowhere inside a text woven from `<`-free gaps and slots
   none of which waits for `m`, whatever text follows it.
   */
  lemma {:induction false} SlotsAvoid(m: nat, gaps: seq<string>, slots: seq<Slot>, rest: string)
    requires |gaps| == |slots| + 1
    requires forall i :: 0 <= i < |gaps| ==> '<' !in gaps[i]
    requires forall i :: 0 <= i < |slots| ==> slots[i] != Waiting(m)
    requires forall i :: 0 <= i < |slots| && slots[i].Restored? ==> '<' !in slots[i].code
    ensures forall i :: 0 <= i < |Weave(gaps, SlotTexts(slots))| ==> !OccursAt(Weave(gaps, SlotTexts(slots)) + rest, Placeholder(m), i)
    decreases |slots|
  {
    var pm := Placeholder(m);
    if |slots| == 0 {
      forall i | 0 <= i < |gaps[0]| ensures !OccursAt(gaps[0] + rest, pm, i) {
        NotInPrefix(gaps[0], rest, pm, i);
      }
    } else {
      var w' := Weave(gaps[1..], SlotTexts(slots[1..]));
      SlotsAvoid(m, gaps[1..], slots[1..], rest);
      var a := gaps[0] + SlotText(slots[0]);
      SlotsCons(gaps, slots, rest);
      SlotAvoids(m, gaps[0], slots[0], w' + rest);
      forall i | |a| <= i < |a| + |w'| ensures !OccursAt(a + (w' + rest), pm, i) {
        OccursAfter(a, w' + rest, pm, i);
      }
    }
  }

  /** The slots' weave cut open at slot `p`. */
  lemma SlotsCut(gaps: seq<string>, slots: seq<Slot>, p: nat)
    requires |gaps| == |slots| + 1 && p < |slots|
    ensures Weave(gaps, SlotTexts(slots))
      == Weave(gaps[..p + 1], SlotTexts(slots[..p])) + (SlotText(slots[p]) + Weave(gaps[p + 1..], SlotTexts(slots[p + 1..])))
  {
    var items := SlotTexts(slots);
    SlotTextsPrefix(slots, p);
    SlotTextsSuffix(slots, p + 1);
    WeaveCut(gaps, items, SlotTexts(slots[..p]), SlotTexts(slots[p + 1..]), p);
  }

  lemma SlotTextsPrefix(slots: seq<Slot>, p: nat)
    requires p <= |slots|
    ensures SlotTexts(slots)[..p] == SlotTexts(slots[..p])
  {
    var l, r := SlotTexts(slots)[..p], SlotTexts(slots[..p]);
    forall k | 0 <= k < p ensures l[k] == r[k] {
      assert l[k] == SlotText(slots[k]);
    }
  }

  lemma SlotTextsSuffix(slots: seq<Slot>, p: nat)
    requires p <= |slots|
    ensures SlotTexts(slots)[p..] == SlotTexts(slots[p..])
  {
    var l, r := SlotTexts(slots)[p..], SlotTexts(slots[p..]);
    forall k | 0 <= k < |l| ensures l[k] == r[k] {
      assert l[k] == SlotText(slots[p + k]);
    }
  }

  /** Cutting the slots' weave open at `p`, before and after replacing the slot there. */
  lemma SlotsAt(gaps: seq<string>, slots: seq<Slot>, code: string, p: nat)
    requires |gaps| == |slots| + 1 && p < |slots|
    ensures var a, b := Weave(gaps[..p + 1], SlotTexts(slots[..p])), Weave(gaps[p + 1..], SlotTexts(slots[p + 1..]));
      && Weave(gaps, SlotTexts(slots)) == a + (SlotText(slots[p]) + b)
      && Weave(gaps, SlotTexts(slots[p := Restored(code)])) == a + code + b
  {
    var s' := slots[p := Restored(code)];
    SlotsCut(gaps, slots, p);
    SlotsCut(gaps, s', p);
    UpdateKeepsOthers(slots, p, Restored(code));
  }

  lemma UpdateKeepsOthers<T>(xs: seq<T>, p: nat, x: T)
    requires p < |xs|
    ensures xs[p := x][..p] == xs[..p] && xs[p := x][p + 1..] == xs[p + 1..]
  {
  }

  /** The waiting slot for `<<<n>>>` holds the first occurrence of it, and the loop restores it there. */
  lemma RestoreWaiting(gaps: seq<string>, slots: seq<Slot>, code: string, n: nat, p: nat)
    requires |gaps| == |slots| + 1 && p < |slots| && slots[p] == Waiting(n)
    requires forall i :: 0 <= i < |gaps| ==> '<' !in gaps[i]
    requires forall i :: 0 <= i < p ==> slots[i] != Waiting(n)
    requires forall i :: 0 <= i < |slots| && slots[i].Restored? ==> '<' !in slots[i].code
    ensures ReplaceFirst(Weave(gaps, SlotTexts(slots)), Placeholder(n), code)
      == Weave(gaps, SlotTexts(slots[p := Restored(code)]))
  {
    var pn := Placeholder(n);
    var a := Weave(gaps[..p + 1], SlotTexts(slots[..p]));
    var b := Weave(gaps[p + 1..], SlotTexts(slots[p + 1..]));
    SlotsAt(gaps, slots, code, p);
    SlotsAvoid(n, gaps[..p + 1], slots[..p], pn + b);
    ReplaceFirstAt(a, pn, b, code);
  }

  /** Replacing a pattern whose first occurrence is right after `a`. */
  lemma ReplaceFirstAt(a: string, pat: string, b: string, code: string)
    requires forall i :: 0 <= i < |a| ==> !OccursAt(a + (pat + b), pat, i)
    ensures ReplaceFirst(a + (pat + b), pat, code) == a + code + b
  {
    var t := a + (pat + b);
    assert t[|a|..|a| + |pat|] == pat;
    assert IsFirstOccurrence(t, pat, |a|);
    assert t[..|a|] == a && t[|a| + |pat|..] == b;
  }

  /** After restoring `<<<n>>>` at its first slot `p`, the loop looks for `<<<n+1>>>` with one code fewer. */
  lemma FilledAfter(slots: seq<Slot>, codes: seq<string>, n: nat, p: nat)
    requires |codes| > 0 && p < |slots| && slots[p] == Waiting(n)
    requires forall k :: 0 <= k < p ==> slots[k] != Waiting(n)
    ensures Filled(slots[p := Restored(codes[0])], codes[1..], n + 1) == Filled(slots, codes, n)
  {
    var s' := slots[p := Restored(codes[0])];
    var l, r := Filled(s', codes[1..], n + 1), Filled(slots, codes, n);
    forall i | 0 <= i < |slots| ensures l[i] == r[i] {
      FilledSlotAfter(slots, codes, n, p, i);
    }
  }

  lemma FilledSlotAfter(slots: seq<Slot>, codes: seq<string>, n: nat, p: nat, i: nat)
    requires |codes| > 0 && p < |slots| && slots[p] == Waiting(n)
    requires forall k :: 0 <= k < p ==> slots[k] != Waiting(n)
    requires i < |slots|
    ensures FilledSlot(slots[p := Restored(codes[0])], codes[1..], n + 1, i) == FilledSlot(slots, codes, n, i)
  {
    var s' := slots[p := Restored(codes[0])];
    if i == p {
      assert FirstWaiting(slots, p);
    } else if slots[i] == Waiting(n) {
      assert p < i && slots[p] == slots[i];
    } else if slots[i].Waiting? {
      assert FirstWaiting(s', i) <==> FirstWaiting(slots, i) by {
        forall k | 0 <= k < i ensures s'[k] == s'[i] <==> slots[k] == slots[i] {
          if k == p {
            assert slots[k] != slots[i] && s'[k] != s'[i];
          }
        }
      }
    }
  }

  /** When no slot waits for `<<<n>>>`, the loop moves on with one code fewer and nothing changes. */
  lemma FilledSkip(slots: seq<Slot>, codes: seq<string>, n: nat)
    requires |codes| > 0
    requires forall i :: 0 <= i < |slots| ==> slots[i] != Waiting(n)
    ensures Filled(slots, codes[1..], n + 1) == Filled(slots, codes, n)
  {
    var l, r := Filled(slots, codes[1..], n + 1), Filled(slots, codes, n);
    forall i | 0 <= i < |slots| ensures l[i] == r[i] {
      assert slots[i] != Waiting(n);
    }
  }

  /**
   Restoration, in general: whatever the model did with the placeholders
   (kept some, dropped others, moved, repeated or invented them), as long as
   the text between them is free of `<`, the first copy of each placeholder
   `<<<j>>>` with j in `n .. n + |codes| - 1` gets the code `codes[j - n]`,
   every other placeholder stays as it is, and the code of a missing
   placeholder is dropped.
   */
  lemma {:induction false} RestoreSlots(gaps: seq<string>, slots: seq<Slot>, codes: seq<string>, n: nat)
    requires |gaps| == |slots| + 1
    requires forall i :: 0 <= i < |gaps| ==> '<' !in gaps[i]
    requires forall i :: 0 <= i < |codes| ==> '<' !in codes[i]
    requires RestoredClean(slots)
    ensures Restore(Weave(gaps, SlotTexts(slots)), codes, n) == Weave(gaps, Filled(slots, codes, n))
    decreases |codes|, 1
  {
    if |codes| == 0 {
      FilledNone(slots, codes, n);
    } else {
      match FindWaiting(slots, n)
      case Some(p) => RestoreFoundThenRest(gaps, slots, codes, n, p);
      case None => RestoreMissingThenRest(gaps, slots, codes, n);
    }
  }

  /** With no codes left, every slot keeps its text. */
  lemma FilledNone(slots: seq<Slot>, codes: seq<string>, n: nat)
    requires |codes| == 0
    ensures Filled(slots, codes, n) == SlotTexts(slots)
  {
  }

  lemma {:induction false} RestoreFoundThenRest(gaps: seq<string>, slots: seq<Slot>, codes: seq<string>, n: nat, p: nat)
    requires |gaps| == |slots| + 1 && |codes| > 0
    requires forall i :: 0 <= i < |gaps| ==> '<' !in gaps[i]
    requires forall i :: 0 <= i < |codes| ==> '<' !in codes[i]
    requires RestoredClean(slots)
    requires p < |slots| && slots[p] == Waiting(n)
    requires forall k :: 0 <= k < p ==> slots[k] != Waiting(n)
    ensures Restore(Weave(gaps, SlotTexts(slots)), codes, n) == Weave(gaps, Filled(slots, codes, n))
    decreases |codes|, 0
  {
    var slots' := slots[p := Restored(codes[0])];
    RestoreFound(gaps, slots, codes, n, p);
    RestoreSlots(gaps, slots', codes[1..], n + 1);
    RestoreStep(Weave(gaps, SlotTexts(slots)), codes, n);
  }

  lemma {:induction false} RestoreMissingThenRest(gaps: seq<string>, slots: seq<Slot>, codes: seq<string>, n: nat)
    requires |gaps| == |slots| + 1 && |codes| > 0
    requires forall i :: 0 <= i < |gaps| ==> '<' !in gaps[i]
    requires forall i :: 0 <= i < |codes| ==> '<' !in codes[i]
    requires RestoredClean(slots)
    requires forall p :: 0 <= p < |slots| ==> slots[p] != Waiting(n)
    ensures Restore(Weave(gaps, SlotTexts(slots)), codes, n) == Weave(gaps, Filled(slots, codes, n))
    decreases |codes|, 0
  {
    RestoreMissing(gaps, slots, codes, n);
    RestoreSlots(gaps, slots, codes[1..], n + 1);
    RestoreStep(Weave(gaps, SlotTexts(slots)), codes, n);
  }

  /** One round of the loop when some slot waits for `<<<n>>>`: the first such slot gets `codes[0]`. */
  lemma RestoreFound(gaps: seq<string>, slots: seq<Slot>, codes: seq<string>, n: nat, p: nat)
    requires |gaps| == |slots| + 1 && |codes| > 0
    requires forall i :: 0 <= i < |gaps| ==> '<' !in gaps[i]
    requires '<' !in codes[0]
    requires RestoredClean(slots)
    requires p < |slots| && slots[p] == Waiting(n)
    requires forall k :: 0 <= k < p ==> slots[k] != Waiting(n)
    ensures var slots' := slots[p := Restored(codes[0])];
      && ReplaceFirst(Weave(gaps, SlotTexts(slots)), Placeholder(n), codes[0]) == Weave(gaps, SlotTexts(slots'))
      && RestoredClean(slots')
      && Filled(slots', codes[1..], n + 1) == Filled(slots, codes, n)
  {
    RestoreWaiting(gaps, slots, codes[0], n, p);
    FilledAfter(slots, codes, n, p);
  }

  /** One round of the loop when no slot waits for `<<<n>>>`: nothing changes but the number. */
  lemma RestoreMissing(gaps: seq<string>, slots: seq<Slot>, codes: seq<string>, n: nat)
    requires |gaps| == |slots| + 1 && |codes| > 0
    requires forall i :: 0 <= i < |gaps| ==> '<' !in gaps[i]
    requires RestoredClean(slots)
    requires forall p :: 0 <= p < |slots| ==> slots[p] != Waiting(n)
    ensures ReplaceFirst(Weave(gaps, SlotTexts(slots)), Placeholder(n), codes[0]) == Weave(gaps, SlotTexts(slots))
    ensures Filled(slots, codes[1..], n + 1) == Filled(slots, codes, n)
  {
    var t := Weave(gaps, SlotTexts(slots));
    SlotsAvoid(n, gaps, slots, []);
    assert t + [] == t;
    ReplaceFirstAbsent(t, Placeholder(n), codes[0]);
    FilledSkip(slots, codes, n);
  }

  /** A pattern that does not occur is not replaced. */
  lemma ReplaceFirstAbsent(t: string, pat: string, code: string)
    requires |pat| > 0 && forall i :: 0 <= i < |t| ==> !OccursAt(t, pat, i)
    ensures ReplaceFirst(t, pat, code) == t
  {
  }

  /**
   The codes land where the model left the placeholders: if the model's
   output is `<`-free text around placeholders `<<<idx[0]>>>`,
   `<<<idx[1]>>>`, ... (in any order, repeated or invented), `safe_translate`
   returns that output with the first copy of each `<<<j>>>`, j in
   `1 .. |codes|`, replaced by the j-th code found in the input; every other
   placeholder stays, and codes whose placeholder is missing are lost.
   */
  lemma SafeTranslatePlacesCodes(translate: string -> string, text: string, gaps: seq<string>, idx: seq<nat>)
    requires |gaps| == |idx| + 1
    requires forall i :: 0 <= i < |gaps| ==> '<' !in gaps[i]
    requires translate(Substitute(text, 1)) == Weave(gaps, Tags(idx))
    ensures SafeTranslate(translate, text) == Weave(gaps, Filled(Waits(idx), FindCodes(text), 1))
  {
    var codes := FindCodes(text);
    forall i | 0 <= i < |codes| ensures '<' !in codes[i] {
      CodeHasNoAngle(codes[i]);
    }
    WaitsTags(idx);
    RestoreSlots(gaps, Waits(idx), codes, 1);
  }

  /**
   When the model keeps each placeholder at most once and invents none,
   `<<<j>>>` becomes the j-th code wherever the model put it.
   */
  lemma SafeTranslateArranged(translate: string -> string, text: string, gaps: seq<string>, idx: seq<nat>)
    requires |gaps| == |idx| + 1 && Arrangement(idx, 1, |FindCodes(text)|)
    requires forall i :: 0 <= i < |gaps| ==> '<' !in gaps[i]
    requires translate(Substitute(text, 1)) == Weave(gaps, Tags(idx))
    ensures SafeTranslate(translate, text) == Weave(gaps, Pick(idx, FindCodes(text), 1))
  {
    SafeTranslatePlacesCodes(translate, text, gaps, idx);
    WaitsFilled(idx, FindCodes(text));
  }

  lemma WaitsTags(idx: seq<nat>)
    ensures SlotTexts(Waits(idx)) == Tags(idx)
  {
  }

  lemma WaitsFilled(idx: seq<nat>, codes: seq<string>)
    requires Arrangement(idx, 1, |codes|)
    ensures Filled(Waits(idx), codes, 1) == Pick(idx, codes, 1)
  {
    var w := Waits(idx);
    var l, r := Filled(w, codes, 1), Pick(idx, codes, 1);
    forall i | 0 <= i < |idx| ensures l[i] == r[i] {
      assert FirstWaiting(w, i) by {
        forall k | 0 <= k < i ensures w[k] != w[i] {
          assert idx[k] != idx[i];
        }
      }
    }
  }

  lemma CodeHasNoAngle(c: string)
    requires IsCode(c)
    ensures '<' !in c
  {
    forall j | 0 <= j < |c| ensures c[j] != '<' {
      if j > 0 {
        assert IsAlnum(c[j]);
      }
    }
  }

  /** With a model that returns its input unchanged, a text free of `<` comes back exactly. */
  lemma SafeTranslateRoundTrip(translate: string -> string, text: string)
    requires forall s :: translate(s) == s
    requires '<' !in text
    ensures SafeTranslate(translate, text) == text
  {
    var gaps, codes := CodeGaps(text), FindCodes(text);
    ExtractSplits(text, 1);
    WeaveHasParts(gaps, codes);
    var idx := Numbers(1, |codes|);
    NumbersPickAll(codes);
    SafeTranslateArranged(translate, text, gaps, idx);
  }

  /** Numbering the codes 1, 2, ... and picking them in that order gives them all back. */
  lemma NumbersPickAll(codes: seq<string>)
    ensures Arrangement(Numbers(1, |codes|), 1, |codes|)
    ensures Pick(Numbers(1, |codes|), codes, 1) == codes
  {
    var idx := Numbers(1, |codes|);
    assert Arrangement(idx, 1, |codes|) by {
      assert forall i :: 0 <= i < |idx| ==> idx[i] == 1 + i;
    }
    PickInOrder(idx, codes, 1);
  }

  lemma PickInOrder(idx: seq<nat>, codes: seq<string>, n: nat)
    requires |idx| == |codes| && forall i :: 0 <= i < |idx| ==> idx[i] == n + i
    ensures Pick(idx, codes, n) == codes
  {
    var r := Pick(idx, codes, n);
    assert forall i :: 0 <= i < |codes| ==> r[i] == codes[i];
  }

  /**
   A placeholder the model duplicated is restored only at its first
   occurrence; the copy stays in the output as placeholder text.
   */
  lemma DuplicateKeepsCopy(g0: string, g1: string, g2: string, codes: seq<string>, n: nat, j: nat)
    requires '<' !in g0 && '<' !in g1 && '<' !in g2
    requires forall i :: 0 <= i < |codes| ==> '<' !in codes[i]
    requires n <= j < n + |codes|
    ensures Restore(g0 + Placeholder(j) + g1 + Placeholder(j) + g2, codes, n)
      == g0 + codes[j - n] + g1 + Placeholder(j) + g2
  {
    var gaps, slots := [g0, g1, g2], [Waiting(j), Waiting(j)];
    assert SlotTexts(slots) == [Placeholder(j), Placeholder(j)];
    FilledDuplicate(codes, n, j);
    assert RestoredClean(slots) && forall i :: 0 <= i < |gaps| ==> '<' !in gaps[i];
    RestoreSlots(gaps, slots, codes, n);
    WeaveTwo(g0, g1, g2, Placeholder(j), Placeholder(j));
    WeaveTwo(g0, g1, g2, codes[j - n], Placeholder(j));
  }

  lemma FilledDuplicate(codes: seq<string>, n: nat, j: nat)
    requires n <= j < n + |codes|
    ensures Filled([Waiting(j), Waiting(j)], codes, n) == [codes[j - n], Placeholder(j)]
  {
    var slots := [Waiting(j), Waiting(j)];
    assert FirstWaiting(slots, 0) && !FirstWaiting(slots, 1);
  }

  /** A placeholder numbered outside the codes' range is never matched and stays in the output. */
  lemma UnknownPlaceholderKept(g0: string, g1: string, codes: seq<string>, n: nat, j: nat)
    requires '<' !in g0 && '<' !in g1
    requires forall i :: 0 <= i < |codes| ==> '<' !in codes[i]
    requires j < n || n + |codes| <= j
    ensures Restore(g0 + Placeholder(j) + g1, codes, n) == g0 + Placeholder(j) + g1
  {
    var gaps, slots := [g0, g1], [Waiting(j)];
    assert SlotTexts(slots) == [Placeholder(j)];
    assert Filled(slots, codes, n) == [Placeholder(j)];
    RestoreSlots(gaps, slots, codes, n);
    WeaveOne(g0, g1, Placeholder(j));
  }

  lemma WeaveOne(g0: string, g1: string, a: string)
    ensures Weave([g0, g1], [a]) == g0 + a + g1
  {
    assert [g0, g1][1..] == [g1] && [a][1..] == [];
  }

  lemma WeaveTwo(g0: string, g1: string, g2: string, a: string, b: string)
    ensures Weave([g0, g1, g2], [a, b]) == g0 + a + g1 + b + g2
  {
    assert [g0, g1, g2][1..] == [g1, g2] && [a, b][1..] == [b];
    WeaveOne(g1, g2, b);
  }
}
