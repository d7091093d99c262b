/**
 The three field passes of `process_file`: `re.sub` with the patterns
 `title:\s*"(.*?)"`, `subtitle:\s*"(.*?)"` and, with DOTALL,
 `description:\s*\[(.*?)\]`, each replacing only the captured body by its
 `safe_translate` image. A pass is modelled as a scan that cuts the text into
 verbatim characters and matched fields (leftmost match first, scanning on
 after the end of each match), followed by a rendering that rewrites the
 bodies.
 */
module Fields {
  import opened Text
  import opened SafeTranslation

  /**
   Python's `\s` in a `str` pattern: the characters for which `str.isspace()`
   holds (ASCII whitespace, the separators U+001C..U+001F and the Unicode
   space characters).
   */
  predicate IsSpace(c: char)
  {
    || c == ' ' || '\t' <= c <= '\r' || '\U{1C}' <= c <= '\U{1F}'
    || c == '\U{85}' || c == '\U{A0}' || c == '\U{1680}' || '\U{2000}' <= c <= '\U{200A}'
    || c == '\U{2028}' || c == '\U{2029}' || c == '\U{202F}' || c == '\U{205F}' || c == '\U{3000}'
  }

  /**
   One field pattern `keyword\s*<open>(.*?)<close>`; without DOTALL the `.`
   of the body does not match a newline.
   */
  datatype FieldPattern = FieldPattern(keyword: string, open: char, close: char, dotAll: bool)

  const TitleField := FieldPattern("title:", '"', '"', false)
  const SubtitleField := FieldPattern("subtitle:", '"', '"', false)
  const DescriptionField := FieldPattern("description:", '[', ']', true)

  /** `h` is what the group before the body matches: keyword, whitespace, opening delimiter. */
  predicate HeadOk(p: FieldPattern, h: string)
  {
    && |h| >= |p.keyword| + 1
    && h[..|p.keyword|] == p.keyword
    && h[|h| - 1] == p.open
    && forall j :: |p.keyword| <= j < |h| - 1 ==> IsSpace(h[j])
  }

  /** `b` is a body the lazy `(.*?)` can stop after: no closing delimiter in it, and no newline without DOTALL. */
  predicate BodyOk(p: FieldPattern, b: string)
  {
    p.close !in b && (!p.dotAll ==> '\n' !in b)
  }

  /** The pattern matches at the start of `text` with the body `text[h..e]` and the closing delimiter at `e`. */
  predicate IsMatch(text: string, p: FieldPattern, h: int, e: int)
  {
    0 <= h <= e < |text| && HeadOk(p, text[..h]) && BodyOk(p, text[h..e]) && text[e] == p.close
  }

  /** Where the body starts and where its closing delimiter sits. */
  datatype Span = Span(bodyStart: nat, bodyEnd: nat)

  /** Length of the run of whitespace at the start of `s` (the greedy `\s*`). */
  function SpaceRun(s: string): (n: nat)
    ensures n <= |s|
    ensures forall j :: 0 <= j < n ==> IsSpace(s[j])
    ensures n == |s| || !IsSpace(s[n])
    decreases |s|
  {
    if |s| == 0 || !IsSpace(s[0]) then 0 else 1 + SpaceRun(s[1..])
  }

  /** The lazy body: the index of the first closing delimiter, unless a newline comes first (without DOTALL). */
  function BodyEnd(s: string, p: FieldPattern): (r: Option<nat>)
    ensures r.Some? ==> r.value < |s| && s[r.value] == p.close && BodyOk(p, s[..r.value])
    ensures r.None? ==> forall e :: 0 <= e < |s| && s[e] == p.close ==> !BodyOk(p, s[..e])
    decreases |s|
  {
    if |s| == 0 then None
    else if s[0] == p.close then
      assert s[..0] == [];
      Some(0)
    else if !p.dotAll && s[0] == '\n' then
      assert forall e :: 0 < e <= |s| ==> s[..e][0] == '\n';
      None
    else
      var rest := BodyEnd(s[1..], p);
      assert forall e :: 0 < e <= |s| ==> s[..e] == [s[0]] + s[1..][..e - 1];
      match rest
      case None => None
      case Some(e) => Some(e + 1)
  }

  /**
   The regular expression tried at the start of `text`: a match is reported
   exactly when one exists, and then it is the one `re` picks.
   */
  function MatchAt(text: string, p: FieldPattern): (r: Option<Span>)
    ensures r.Some? ==> IsMatch(text, p, r.value.bodyStart, r.value.bodyEnd)
    ensures r.None? && !IsSpace(p.open) ==> forall h, e :: !IsMatch(text, p, h, e)
  {
    var k := |p.keyword|;
    if |text| < k || text[..k] != p.keyword then
      NoMatchWithoutKeyword(text, p);
      None
    else
      var h := k + SpaceRun(text[k..]) + 1;
      HeadAt(text, p, h);
      if h > |text| || text[h - 1] != p.open then
        NoMatchWithoutOpen(text, p, h);
        None
      else
        match BodyEnd(text[h..], p)
        case None =>
          NoMatchWithoutClose(text, p, h);
          None
        case Some(e) =>
          MatchWithClose(text, p, h, e);
          Some(Span(h, h + e))
  }

  lemma MatchWithClose(text: string, p: FieldPattern, h: nat, e: nat)
    requires h <= |text| && HeadOk(p, text[..h]) && BodyEnd(text[h..], p) == Some(e)
    ensures IsMatch(text, p, h, h + e)
  {
    assert text[h..h + e] == text[h..][..e];
  }

  lemma NoMatchWithoutKeyword(text: string, p: FieldPattern)
    requires |text| < |p.keyword| || text[..|p.keyword|] != p.keyword
    ensures forall h, e :: !IsMatch(text, p, h, e)
  {
    var k := |p.keyword|;
    assert forall h :: k < h <= |text| ==> text[..h][..k] == text[..k];
  }

  lemma NoMatchWithoutOpen(text: string, p: FieldPattern, h: int)
    requires h > |text| || (0 < h <= |text| && text[h - 1] != p.open)
    requires !IsSpace(p.open) ==> forall h' :: 0 <= h' <= |text| && HeadOk(p, text[..h']) ==> h' == h
    ensures !IsSpace(p.open) ==> forall h', e :: !IsMatch(text, p, h', e)
  {
    if !IsSpace(p.open) {
      forall h' | 0 < h' <= |text| ensures text[..h'][h' - 1] == text[h' - 1] {
      }
    }
  }

  lemma NoMatchWithoutClose(text: string, p: FieldPattern, h: nat)
    requires h <= |text| && BodyEnd(text[h..], p).None?
    requires forall h' :: 0 <= h' <= |text| && HeadOk(p, text[..h']) ==> h' == h
    ensures forall h', e :: !IsMatch(text, p, h', e)
  {
    assert forall e :: h <= e < |text| ==> text[h..e] == text[h..][..e - h] && text[e] == text[h..][e - h];
  }

  /** The greedy `\s*` leaves a single candidate for the end of the head. */
  lemma HeadAt(text: string, p: FieldPattern, h: int)
    requires |p.keyword| <= |text| && text[..|p.keyword|] == p.keyword
    requires h == |p.keyword| + SpaceRun(text[|p.keyword|..]) + 1
    ensures h <= |text| && text[h - 1] == p.open ==> HeadOk(p, text[..h]) && !IsSpace(p.open)
    ensures !IsSpace(p.open) ==> forall h' :: 0 <= h' <= |text| && HeadOk(p, text[..h']) ==> h' == h
  {
    var k := |p.keyword|;
    var w := SpaceRun(text[k..]);
    assert forall j :: k <= j < k + w ==> IsSpace(text[j]) by {
      assert forall j :: k <= j < k + w ==> text[j] == text[k..][j - k];
    }
    assert k + w == |text| || !IsSpace(text[k + w]) by {
      if k + w < |text| {
        assert text[k + w] == text[k..][w];
      }
    }
    if h <= |text| {
      assert text[..h][..k] == text[..k];
    }
    forall h' | 0 <= h' <= |text| && HeadOk(p, text[..h']) && !IsSpace(p.open) ensures h' == h {
      assert text[..h'][h' - 1] == text[h' - 1];
      assert forall j :: k <= j < h' - 1 ==> text[..h'][j] == text[j];
    }
  }

  /** A match is unique: the pattern cannot match at one place in two ways. */
  lemma MatchAtFinds(text: string, p: FieldPattern, h: int, e: int)
    requires !IsSpace(p.open) && IsMatch(text, p, h, e)
    ensures MatchAt(text, p) == Some(Span(h, e))
  {
    var r := MatchAt(text, p);
    assert r.Some?;
    MatchUnique(text, p, h, e, r.value.bodyStart, r.value.bodyEnd);
  }

  lemma MatchUnique(text: string, p: FieldPattern, h: int, e: int, h': int, e': int)
    requires !IsSpace(p.open) && IsMatch(text, p, h, e) && IsMatch(text, p, h', e')
    ensures h == h' && e == e'
  {
    assert h == h' by {
      var k := |p.keyword|;
      assert text[..h][..k] == text[..k];
      HeadAt(text, p, k + SpaceRun(text[k..]) + 1);
    }
    var s := text[h..];
    assert forall x :: h <= x < |text| ==> text[h..x] == s[..x - h] && text[x] == s[x - h];
    FirstCloseUnique(s, p.close, e - h, e' - h);
  }

  /** Two positions of `c`, each with no `c` before it, are the same position. */
  lemma FirstCloseUnique(s: string, c: char, x: int, y: int)
    requires 0 <= x < |s| && 0 <= y < |s|
    requires s[x] == c && c !in s[..x] && s[y] == c && c !in s[..y]
    ensures x == y
  {
    assert forall j :: 0 <= j < y ==> s[..y][j] == s[j];
    assert forall j :: 0 <= j < x ==> s[..x][j] == s[j];
  }

  /** A piece of a scanned text: a character outside any match, or a matched field cut into head, body and closing delimiter. */
  datatype Piece = Verbatim(c: char) | Field(head: string, body: string, close: char)

  /** A field piece shaped as the pattern demands. */
  predicate Fits(p: FieldPattern, piece: Piece)
  {
    piece.Field? && HeadOk(p, piece.head) && BodyOk(p, piece.body) && piece.close == p.close
  }

  /** One step of the scan: the piece taken at the start of the text and how many characters it covers. */
  datatype Step = Step(piece: Piece, used: nat)

  /**
   How `re.sub` advances: try the pattern at the current position; on a
   match take the whole field up to and including its closing delimiter,
   otherwise keep one character.
   */
  function Next(text: string, p: FieldPattern): (st: Step)
    requires |text| > 0
    ensures 1 <= st.used <= |text|
    ensures RenderPiece(st.piece, Unchanged) == text[..st.used]
    ensures st.piece.Field? ==> Fits(p, st.piece)
    ensures st.piece.Verbatim? <==> MatchAt(text, p).None?
  {
    match MatchAt(text, p)
    case Some(sp) =>
      MatchedField(text, p, sp.bodyStart, sp.bodyEnd);
      Step(Field(text[..sp.bodyStart], text[sp.bodyStart..sp.bodyEnd], p.close), sp.bodyEnd + 1)
    case None =>
      Step(Verbatim(text[0]), 1)
  }

  /** The matched field, cut into head, body and closing delimiter, spells the text up to the delimiter. */
  lemma MatchedField(text: string, p: FieldPattern, h: int, e: int)
    requires IsMatch(text, p, h, e)
    ensures text[..e + 1] == text[..h] + text[h..e] + [p.close]
    ensures Fits(p, Field(text[..h], text[h..e], p.close))
  {
    assert text[..e + 1] == text[..h] + text[h..e] + [text[e]];
  }

  /** How `re.sub` walks the text: one step after another until the text is used up. */
  function Scan(text: string, p: FieldPattern): (pieces: seq<Piece>)
    ensures forall i :: 0 <= i < |pieces| && pieces[i].Field? ==> Fits(p, pieces[i])
    decreases |text|
  {
    if |text| == 0 then []
    else
      var st := Next(text, p);
      [st.piece] + Scan(text[st.used..], p)
  }

  /** The function that leaves a body as it is. */
  function Unchanged(s: string): string
  {
    s
  }

  /** The text of one piece, its body rewritten by `f`. */
  function RenderPiece(piece: Piece, f: string -> string): string
  {
    match piece
    case Verbatim(c) => [c]
    case Field(h, b, c) => h + f(b) + [c]
  }

  /** The pieces put back together, each field's body rewritten by `f`. */
  function Render(pieces: seq<Piece>, f: string -> string): string
    decreases |pieces|
  {
    if |pieces| == 0 then [] else RenderPiece(pieces[0], f) + Render(pieces[1..], f)
  }

  /** One `re.sub` pass: every matched body `b` becomes `f(b)`. */
  function Pass(text: string, p: FieldPattern, f: string -> string): string
  {
    Render(Scan(text, p), f)
  }

  /** The body of `process_file` between reading and writing: title, then subtitle, then description. */
  function TranslateFields(translate: string -> string, content: string): string
  {
    var f := (s: string) => SafeTranslate(translate, s);
    Pass(Pass(Pass(content, TitleField, f), SubtitleField, f), DescriptionField, f)
  }

  /** Nothing is lost or invented by the scan: with bodies untouched the pieces spell the text. */
  lemma {:induction false} ScanCovers(text: string, p: FieldPattern)
    ensures Render(Scan(text, p), Unchanged) == text
    decreases |text|
  {
    if |text| > 0 {
      var st := Next(text, p);
      var tail := text[st.used..];
      ScanCovers(tail, p);
      CoverStep(text, st.used, st.piece, Scan(tail, p));
    }
  }

  lemma CoverStep(text: string, used: nat, piece: Piece, rest: seq<Piece>)
    requires 1 <= used <= |text|
    requires RenderPiece(piece, Unchanged) == text[..used] && Render(rest, Unchanged) == text[used..]
    ensures Render([piece] + rest, Unchanged) == text
  {
    RenderCons(piece, rest, Unchanged);
    assert text == text[..used] + text[used..];
  }

  lemma RenderCons(piece: Piece, rest: seq<Piece>, f: string -> string)
    ensures Render([piece] + rest, f) == RenderPiece(piece, f) + Render(rest, f)
  {
    assert ([piece] + rest)[1..] == rest;
  }

  /**
   A pass changes nothing but the captured bodies: the input and the output
   are the same pieces (verbatim characters, and fields with their keyword,
   whitespace and delimiters), rendered once with the original bodies and
   once with the rewritten ones; every field is shaped as the pattern says.
   */
  lemma PassChangesOnlyBodies(text: string, p: FieldPattern, f: string -> string)
    ensures var ps := Scan(text, p);
      && text == Render(ps, Unchanged)
      && Pass(text, p, f) == Render(ps, f)
      && forall i :: 0 <= i < |ps| && ps[i].Field? ==> Fits(p, ps[i])
  {
    ScanCovers(text, p);
  }

  /** If `f` leaves every matched body alone, rendering with `f` gives the original text. */
  lemma {:induction false} RenderFixedBodies(pieces: seq<Piece>, f: string -> string)
    requires forall i :: 0 <= i < |pieces| && pieces[i].Field? ==> f(pieces[i].body) == pieces[i].body
    ensures Render(pieces, f) == Render(pieces, Unchanged)
    decreases |pieces|
  {
    if |pieces| > 0 {
      RenderFixedBodies(pieces[1..], f);
    }
  }

  /** A character absent from a text is absent from every body found in it. */
  lemma {:induction false} BodiesInherit(pieces: seq<Piece>, c: char)
    requires c !in Render(pieces, Unchanged)
    ensures forall i :: 0 <= i < |pieces| && pieces[i].Field? ==> c !in pieces[i].body
    decreases |pieces|
  {
    if |pieces| > 0 {
      BodiesInherit(pieces[1..], c);
      forall i | 1 <= i < |pieces| && pieces[i].Field? ensures c !in pieces[i].body {
        assert pieces[i] == pieces[1..][i - 1];
      }
    }
  }

  /** No body the pattern captures in `text` contains `<`. */
  predicate BodiesClean(text: string, p: FieldPattern)
  {
    var ps := Scan(text, p);
    forall i :: 0 <= i < |ps| && ps[i].Field? ==> '<' !in ps[i].body
  }

  /**
   With a model that returns its input unchanged, a pass leaves a text as it
   was, provided the bodies it captures are free of `<`; the rest of the text
   may hold anything.
   */
  lemma PassIdentity(translate: string -> string, text: string, p: FieldPattern)
    requires forall s :: translate(s) == s
    requires BodiesClean(text, p)
    ensures Pass(text, p, (s: string) => SafeTranslate(translate, s)) == text
  {
    var f := (s: string) => SafeTranslate(translate, s);
    var ps := Scan(text, p);
    ScanCovers(text, p);
    forall i | 0 <= i < |ps| && ps[i].Field? ensures f(ps[i].body) == ps[i].body {
      SafeTranslateRoundTrip(translate, ps[i].body);
    }
    RenderFixedBodies(ps, f);
  }

  /**
   With a model that returns its input unchanged, content whose title,
   subtitle and description bodies are free of `<` is returned unchanged.
   Each pass then leaves the content as it was, so all three scan the same
   text.
   */
  lemma TranslateFieldsIdentity(translate: string -> string, content: string)
    requires forall s :: translate(s) == s
    requires BodiesClean(content, TitleField) && BodiesClean(content, SubtitleField)
    requires BodiesClean(content, DescriptionField)
    ensures TranslateFields(translate, content) == content
  {
    PassIdentity(translate, content, TitleField);
    PassIdentity(translate, content, SubtitleField);
    PassIdentity(translate, content, DescriptionField);
  }

  /** A text free of `<` has `<`-free bodies under every pattern. */
  lemma AngleFreeBodies(text: string, p: FieldPattern)
    requires '<' !in text
    ensures BodiesClean(text, p)
  {
    ScanCovers(text, p);
    BodiesInherit(Scan(text, p), '<');
  }

  /** In particular, with an identity model, content free of `<` is returned unchanged. */
  lemma AngleFreeFileUnchanged(translate: string -> string, content: string)
    requires forall s :: translate(s) == s
    requires '<' !in content
    ensures TranslateFields(translate, content) == content
  {
    AngleFreeBodies(content, TitleField);
    AngleFreeBodies(content, SubtitleField);
    AngleFreeBodies(content, DescriptionField);
    TranslateFieldsIdentity(translate, content);
  }

  /** The characters of `a`, each as a verbatim piece. */
  function Verbatims(a: string): (ps: seq<Piece>)
    ensures |ps| == |a|
    decreases |a|
  {
    if |a| == 0 then [] else [Verbatim(a[0])] + Verbatims(a[1..])
  }

  lemma {:induction false} RenderVerbatims(a: string, rest: seq<Piece>, f: string -> string)
    ensures Render(Verbatims(a) + rest, f) == a + Render(rest, f)
    decreases |a|
  {
    if |a| > 0 {
      var ps := Verbatims(a) + rest;
      assert Verbatims(a) == [Verbatim(a[0])] + Verbatims(a[1..]);
      assert ps[0] == Verbatim(a[0]) && ps[1..] == Verbatims(a[1..]) + rest;
      assert Render(ps, f) == [a[0]] + Render(Verbatims(a[1..]) + rest, f);
      RenderVerbatims(a[1..], rest, f);
      assert a == [a[0]] + a[1..];
    } else {
      assert Verbatims(a) + rest == rest;
    }
  }

  /** Where the keyword does not start, the scan keeps characters one by one. */
  lemma {:induction false} ScanSkips(a: string, b: string, p: FieldPattern)
    requires forall k :: 0 <= k < |a| ==> !OccursAt(a + b, p.keyword, k)
    ensures Scan(a + b, p) == Verbatims(a) + Scan(b, p)
    decreases |a|
  {
    if |a| > 0 {
      var text := a + b;
      ScanVerbatim(text, p);
      assert text[1..] == a[1..] + b;
      forall k | 0 <= k < |a| - 1 ensures !OccursAt(a[1..] + b, p.keyword, k) {
        OccursAtTail(text, p.keyword, k);
      }
      ScanSkips(a[1..], b, p);
      assert Verbatims(a) == [Verbatim(a[0])] + Verbatims(a[1..]);
    } else {
      assert a + b == b && Verbatims(a) + Scan(b, p) == Scan(b, p);
    }
  }

  /** Where the keyword does not start, the scan keeps the first character and moves on by one. */
  lemma ScanVerbatim(text: string, p: FieldPattern)
    requires |text| > 0 && !OccursAt(text, p.keyword, 0)
    ensures Scan(text, p) == [Verbatim(text[0])] + Scan(text[1..], p)
  {
    assert MatchAt(text, p) == None by {
      if |p.keyword| <= |text| {
        assert text[0..|p.keyword|] == text[..|p.keyword|];
      }
    }
    var st := Next(text, p);
    assert [st.piece.c] == text[..1];
  }

  /** A pass copies a stretch in which its keyword does not start and goes on after it. */
  lemma PassSkips(a: string, b: string, p: FieldPattern, f: string -> string)
    requires forall k :: 0 <= k < |a| ==> !OccursAt(a + b, p.keyword, k)
    ensures Pass(a + b, p, f) == a + Pass(b, p, f)
  {
    ScanSkips(a, b, p);
    RenderVerbatims(a, Scan(b, p), f);
  }

  /** A pass over a text in which its keyword never occurs changes nothing. */
  lemma PassWithoutKeyword(text: string, p: FieldPattern, f: string -> string)
    requires !Contains(text, p.keyword)
    ensures Pass(text, p, f) == text
  {
    assert text + [] == text;
    ScanSkips(text, [], p);
    RenderVerbatims(text, [], f);
  }

  /**
   A well-formed field at the start of the text is rewritten in its body
   only, and the pass goes on after its closing delimiter.
   */
  lemma FieldThenRest(p: FieldPattern, ws: string, b: string, rest: string, f: string -> string)
    requires !IsSpace(p.open)
    requires forall j :: 0 <= j < |ws| ==> IsSpace(ws[j])
    requires BodyOk(p, b)
    ensures Pass(p.keyword + ws + [p.open] + b + [p.close] + rest, p, f)
      == p.keyword + ws + [p.open] + f(b) + [p.close] + Pass(rest, p, f)
  {
    var head := p.keyword + ws + [p.open];
    var text := head + b + [p.close] + rest;
    var h, e := |head|, |head| + |b|;
    assert text[..h] == head && text[h..e] == b && text[e] == p.close && text[e + 1..] == rest;
    assert HeadOk(p, head) by {
      assert head[..|p.keyword|] == p.keyword;
      assert forall j :: |p.keyword| <= j < |head| - 1 ==> head[j] == ws[j - |p.keyword|];
    }
    MatchAtFinds(text, p, h, e);
    assert Scan(text, p) == [Field(head, b, p.close)] + Scan(rest, p);
  }

  /** A field as the quest files write it: keyword, one space, and the delimited body. */
  function Line(p: FieldPattern, b: string): string
  {
    p.keyword + " " + [p.open] + b + [p.close]
  }

  /** A lone field, nothing after its closing delimiter, is rewritten in its body only. */
  lemma FieldAlone(p: FieldPattern, b: string, f: string -> string)
    requires !IsSpace(p.open)
    requires BodyOk(p, b)
    ensures Pass(Line(p, b), p, f) == Line(p, f(b))
  {
    FieldThenRest(p, " ", b, [], f);
    assert Line(p, b) + [] == Line(p, b);
    assert Pass([], p, f) == [];
  }

  /** The keyword `title:` does not start within the first three characters of `sub` + anything. */
  lemma NoTitleInSub(t: string)
    ensures forall k :: 0 <= k < 3 ==> !OccursAt("sub" + t, TitleField.keyword, k)
  {
    var text := "sub" + t;
    forall k | 0 <= k < 3 ensures !OccursAt(text, TitleField.keyword, k) {
      if k + 6 <= |text| {
        assert text[k..k + 6][0] == text[k] != 't';
      }
    }
  }

  /** A subtitle line is the three letters `sub` followed by a title line. */
  lemma SubtitleShape(b: string)
    ensures Line(SubtitleField, b) == "sub" + Line(TitleField, b)
  {
  }

  /**
   The title pattern has no word boundary: inside `subtitle: "..."` it
   matches the `title: "..."` tail and rewrites the body.
   */
  lemma TitlePassOnSubtitle(b: string, f: string -> string)
    requires BodyOk(SubtitleField, b)
    ensures Pass(Line(SubtitleField, b), TitleField, f) == Line(SubtitleField, f(b))
  {
    SubtitleShape(b);
    SubtitleShape(f(b));
    NoTitleInSub(Line(TitleField, b));
    PassSkips("sub", Line(TitleField, b), TitleField, f);
    FieldAlone(TitleField, b, f);
  }

  /**
   The title pass rewrites a subtitle body and the subtitle pass then
   rewrites the same body again: a subtitle goes through the model twice.
   */
  lemma SubtitleTranslatedTwice(b: string, f: string -> string)
    requires BodyOk(SubtitleField, b) && BodyOk(SubtitleField, f(b))
    ensures Pass(Pass(Line(SubtitleField, b), TitleField, f), SubtitleField, f) == Line(SubtitleField, f(f(b)))
  {
    TitlePassOnSubtitle(b, f);
    FieldAlone(SubtitleField, f(b), f);
  }

  /** The keyword `title:` does not start inside the head `description: [`. */
  lemma NoTitleInDescriptionHead(t: string)
    ensures forall k :: 0 <= k < 14 ==> !OccursAt("description: [" + t, TitleField.keyword, k)
  {
    var text := "description: [" + t;
    forall k | 0 <= k < 14 ensures !OccursAt(text, TitleField.keyword, k) {
      if k + 6 <= |text| {
        if k == 7 {
          assert text[k..k + 6][2] == 'o';
        } else {
          assert text[k..k + 6][0] == text[k] != 't';
        }
      }
    }
  }

  /**
   The title pass does not stop at description lists: a `title: "..."`
   written inside a description body is rewritten by it too.
   */
  lemma TitleInsideDescription(b: string, f: string -> string)
    requires BodyOk(TitleField, b)
    ensures Pass("description: [" + Line(TitleField, b) + "]", TitleField, f) == "description: [" + Line(TitleField, f(b)) + "]"
  {
    NoTitleInDescriptionHead(Line(TitleField, b) + "]");
    assert "description: [" + Line(TitleField, b) + "]" == "description: [" + (Line(TitleField, b) + "]");
    PassSkips("description: [", Line(TitleField, b) + "]", TitleField, f);
    FieldThenRest(TitleField, " ", b, "]", f);
    PassWithoutKeyword("]", TitleField, f);
  }
}
