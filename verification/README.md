# FTB Quests translator — a Dafny model of its text handling

`translateQuests.py` translates the quest book of a Minecraft modpack. It reads
every `.snbt` chapter file, rewrites the text of the `title: "…"`,
`subtitle: "…"` and `description: […]` fields with a neural translation
model, and writes the result to the path obtained by replacing every
`chapters` in the input path with `chapters-translate`. For the usual layout
`<root>/chapters/<name>.snbt` that is a `chapters-translate` directory next to
the original; a path without `chapters` is written over its own input.
Before translation, the formatting codes of the quest text (`&4`, `&e`, `&r`,
…) are swapped for numbered placeholders `<<<1>>>`, `<<<2>>>`, … so that the
model cannot damage them. They are put back afterwards.

This project models the deterministic text processing around the model call
and proves what it does:

- `text.dfy` (module `Text`) holds the shared vocabulary:
  - substring occurrences, and Python's `str.find`;
  - the *weave* of gaps and inserted pieces, which every scanner here produces;
  - Python's decimal rendering `str(n)`, used to spell placeholders.
- `extraction.dfy` (module `Extraction`) models step 1 of `safe_translate`:
  - `re.findall(r'(&[0-9a-zA-Z]+)', text)`;
  - the counter-driven `re.sub` that replaces each code by `<<<count>>>`.

  Both scans are proved to cut the text at the same places, and the placeholder
  numbers follow the order of the codes.
- `safe_translation.dfy` (module `SafeTranslation`) models the rest of
  `safe_translate`:
  - the model call, given as an arbitrary function `translate: string -> string`;
  - the restoring loop, which replaces only the first occurrence of `<<<i>>>`
    with the i-th code.

  The central theorem, `RestoreSlots`, covers any model output that is `<`-free
  text around placeholders. The model may keep, drop, reorder, repeat or invent
  placeholders. The first copy of each placeholder numbered within the codes
  receives its own code. Later copies, and placeholders numbered outside the
  codes, stay as placeholder text. The code of a missing placeholder is lost.
- `fields.dfy` (module `Fields`) models the three `re.sub` passes of
  `process_file`. A pass is a scan that cuts the text into verbatim characters
  and matched fields (leftmost match, lazy body, greedy `\s*`), followed by a
  rendering that rewrites only the bodies.
- `paths.dfy` (module `OutputPaths`) models the output path:
  `str(file_path).replace('chapters', 'chapters-translate')`.

Where the program's own documentation and its code differ, the model follows
the code. The documentation meant here is the `safe_translate` docstring
(translateQuests.py:39-45), the `process_file` docstring, which promises to
write into a new folder by replacing `chapters` with `chapters-translate`
(translateQuests.py:78), and the example path `/home/username/quests/chapters`
in the prompt of `main` (translateQuests.py:126).

- Every occurrence of `chapters` in the path is replaced, not just the
  directory name, so a file whose name or parent also contains `chapters` is
  written elsewhere than the docstring suggests. `OutputPathChanges` and
  `ReplaceAllWeaves` state this.
- The title pattern `title:\s*"(.*?)"` has no word boundary. It therefore
  also matches the tail of `subtitle: "…"`, so the title pass already
  translates a subtitle body: `TitlePassOnSubtitle`. When that first
  translation `f(b)` is itself a valid body (no `"`, no newline), the subtitle
  pass translates it again and the body ends up as `f(f(b))`:
  `SubtitleTranslatedTwice`.
- For the same reason, a `title: "…"` written inside a description list is
  rewritten by the title pass before the description pass sees it:
  `TitleInsideDescription`. The fields are therefore not translated in
  isolation from one another.
- The `safe_translate` docstring promises that the codes are restored at the
  placeholders' places. A placeholder that the model duplicates is restored
  only at its first occurrence, and the copy stays in the output:
  `DuplicateKeepsCopy`. A placeholder the model invents, numbered beyond the
  codes, stays in the output as well: `UnknownPlaceholderKept`.

## Model

| member | source | states |
|---|---|---|
| Text.Find | translateQuests.py:68 | `str.find`: a reported index is the leftmost occurrence; no index means the pattern does not occur at all |
| Text.Decimal | translateQuests.py:54 | the counter in an f-string is at least one digit, all digits, and has no leading zero |
| Text.DecimalInjective | translateQuests.py:54 | distinct counters give distinct placeholder spellings (via `ParseDecimalInverts`, reading the digits back) |
| Extraction.CodeLength | translateQuests.py:48 | a code matches at the start exactly when `&` is followed by an ASCII letter or digit; the greedy `+` takes the whole alphanumeric run |
| Extraction.FindCodes | translateQuests.py:48 | every code found is a whole match of `&[0-9a-zA-Z]+`; no code is found exactly when no `&` is followed by a letter or digit |
| Extraction.Substitute | translateQuests.py:51-59 | a text with no code start is left unchanged by the substitution |
| Extraction.Placeholder | translateQuests.py:54 | `<<<n>>>` opens with `<<<`, closes with `>>>`, and is at least seven characters long |
| Extraction.ExtractSplits | translateQuests.py:48-59 | findall and sub cut the text at the same places: the text is gaps woven with the codes; the cleaned text is the same gaps woven with `<<<n>>>, <<<n+1>>>, …`; no gap holds a code start, and no gap after a code starts with an alphanumeric |
| SafeTranslation.ReplaceFirst | translateQuests.py:68 | `replace(p, c, 1)` replaces exactly the leftmost occurrence, and without an occurrence it is the identity |
| SafeTranslation.PlaceholderMismatch | translateQuests.py:54-68 | searching for `<<<m>>>` never finds it inside `<<<n>>>` for m ≠ n, nor inside preceding `<`-free text |
| SafeTranslation.ReplaceFirstAt | translateQuests.py:68 | when the first occurrence of the pattern sits right after a prefix, that occurrence is the one replaced |
| SafeTranslation.Restore | translateQuests.py:66-68 | the restoring loop `for i, code in enumerate(codes, 1)`; its partner theorem is `RestoreSlots`, and `DuplicateKeepsCopy` and `UnknownPlaceholderKept` are its corner cases |
| SafeTranslation.FindWaiting | translateQuests.py:68 | the search of `str.find` on slots: the reported slot is the first one waiting for `<<<n>>>`; none reported means no slot waits for it |
| SafeTranslation.FilledAfter | translateQuests.py:66-68 | giving the code to the first slot waiting for `<<<n>>>` and continuing from `n + 1` ends in the same filling as the whole loop from `n` |
| SafeTranslation.FilledSkip | translateQuests.py:66-68 | when no slot waits for `<<<n>>>`, its code is lost and the filling continues from `n + 1` unchanged |
| SafeTranslation.RestoreWaiting | translateQuests.py:66-68 | the first slot waiting for `<<<n>>>` holds its first occurrence in the text, and that slot receives the code; later copies are untouched |
| SafeTranslation.RestoreSlots | translateQuests.py:66-68 | restoring codes into `<`-free text around placeholders (any subset, order, repetition or numbering) yields the same gaps around the filled slots: the first copy of `<<<j>>>` with j among the code numbers becomes the j-th code; repeated copies and out-of-range numbers stay placeholder text; codes of missing placeholders are dropped |
| SafeTranslation.SafeTranslatePlacesCodes | translateQuests.py:38-71 | whatever arrangement of placeholders the model returns between `<`-free text, `safe_translate` returns that text with the first copy of each `<<<j>>>` (j from 1 to the number of codes) replaced by the j-th code found in the input, and every other placeholder left as it was |
| SafeTranslation.SafeTranslate | translateQuests.py:38-71 | a text without a formatting code is handed to the model unchanged and its answer returned as is; the partner theorems are `SafeTranslatePlacesCodes` and `SafeTranslateRoundTrip` |
| SafeTranslation.SafeTranslateArranged | translateQuests.py:38-71 | when the model keeps each placeholder at most once and invents none, each placeholder it keeps is replaced by exactly the code it stood for |
| SafeTranslation.SafeTranslateRoundTrip | translateQuests.py:38-71 | with a model that returns its input, a `<`-free text comes back unchanged: extraction and restoration are inverse |
| SafeTranslation.DuplicateKeepsCopy | translateQuests.py:66-68 | a duplicated placeholder gets its code only at the first copy; the second copy stays as placeholder text, contrary to the docstring's promise to restore codes at the placeholders' places |
| SafeTranslation.UnknownPlaceholderKept | translateQuests.py:66-68 | a placeholder numbered outside the codes (one the model invented) is left in the output as placeholder text |
| Fields.SpaceRun | translateQuests.py:86 | the greedy `\s*` takes every leading whitespace character and stops at the first other one |
| Fields.BodyEnd | translateQuests.py:85-100 | the lazy `(.*?)` ends at the first closing delimiter; without DOTALL, no body exists if a newline comes first |
| Fields.MatchAt | translateQuests.py:85-100 | a reported match is a genuine match of `keyword\s*<open>(.*?)<close>`; no report means no match exists at that position |
| Fields.MatchAtFinds | translateQuests.py:85-100 | every genuine match at a position is the one reported, so matches are unique |
| Fields.Scan | translateQuests.py:85-100 | the left-to-right scan of `re.sub`; its partner is `ScanCovers` (the pieces spell the input) and each step is `Next` |
| Fields.Next | translateQuests.py:85-100 | one `re.sub` step consumes a whole match, or one character when there is no match, and the piece it takes spells exactly the characters consumed |
| Fields.ScanCovers | translateQuests.py:85-100 | the scan loses and invents nothing: its pieces, rendered with their bodies, spell the input |
| Fields.PassChangesOnlyBodies | translateQuests.py:85-100 | a pass changes only the captured bodies; keyword, whitespace, delimiters and text outside matches are kept |
| Fields.Pass | translateQuests.py:85-100 | one `re.sub(pattern, lambda m: group1 + safe_translate(group2) + group3, content)`; its partners are `PassChangesOnlyBodies` and `PassIdentity` |
| Fields.RenderFixedBodies | translateQuests.py:85-100 | if the rewrite fixes every body, the rendering is the original text |
| Fields.PassWithoutKeyword | translateQuests.py:85-100 | a pass over text in which its keyword never occurs is the identity |
| Fields.PassSkips | translateQuests.py:85-100 | a pass copies a stretch in which its keyword does not start, then continues after it |
| Fields.FieldThenRest | translateQuests.py:85-100 | a well-formed field at the start is rewritten in its body only, and the pass resumes after its closing delimiter |
| Fields.FieldAlone | translateQuests.py:85-100 | a lone `keyword "body"` line becomes `keyword "f(body)"` |
| Fields.TitlePassOnSubtitle | translateQuests.py:85-89 | the title pass rewrites the body of a `subtitle: "…"` line |
| Fields.SubtitleTranslatedTwice | translateQuests.py:85-94 | after the title and subtitle passes, a subtitle body `b` has become `f(f(b))`, when `f(b)` is itself a valid body (no `"`, no newline) |
| Fields.TitleInsideDescription | translateQuests.py:85-100 | the title pass rewrites a `title: "…"` nested inside a description list |
| Fields.PassIdentity | translateQuests.py:85-100 | with an identity model, one pass is the identity whenever no matched body contains `<`; the rest of the text is unconstrained |
| Fields.TranslateFieldsIdentity | translateQuests.py:85-100 | with an identity model, the three passes return the content read unchanged when no title, subtitle or description body contains `<` |
| Fields.TranslateFields | translateQuests.py:85-100 | the title, subtitle and description passes in that order; its partners are `TranslateFieldsIdentity` and `SubtitleTranslatedTwice` |
| Fields.AngleFreeBodies | translateQuests.py:85-100 | in a text without `<`, no matched body contains `<` |
| Fields.AngleFreeFileUnchanged | translateQuests.py:85-100 | with an identity model, content read without `<` is returned unchanged |
| OutputPaths.ReplaceAllWithout | translateQuests.py:102 | `str.replace` without an occurrence returns its input |
| OutputPaths.ReplaceAllLength | translateQuests.py:102 | each replacement changes the length by `len(rep) - len(pat)`, once per occurrence that the replace rewrites (`Count`) |
| OutputPaths.CountZero | translateQuests.py:102 | the number of occurrences the replace rewrites is zero exactly when the pattern does not occur |
| OutputPaths.OutputPathChanges | translateQuests.py:102 | the output path is 10 characters longer per `chapters`, and equals the input exactly when there is no `chapters` |
| OutputPaths.ReplaceAllSplits | translateQuests.py:102 | a character foreign to the pattern splits the path into two halves that are rewritten independently |
| OutputPaths.QuestFileOutput | translateQuests.py:102 | `<root>/chapters/<name>` goes to `<root>/chapters-translate/<name>` when neither part mentions `chapters` again |
| OutputPaths.ReplaceAllWeaves | translateQuests.py:102 | the input is gaps woven with copies of `chapters` and the output the same gaps woven with `chapters-translate`; no gap contains `chapters`, so every occurrence is replaced |
| OutputPaths.ReplaceAll | translateQuests.py:102 | Python's `str.replace(pat, rep)`, left to right and non-overlapping; its partners are `ReplaceAllWeaves`, `ReplaceAllLength` and `ReplaceAllWithout` |
| OutputPaths.Count | translateQuests.py:102 | the number of occurrences that the replace at line 102 rewrites: non-overlapping, leftmost first; its partners are `CountZero` and `ReplaceAllLength` |
| OutputPaths.OutputPath | translateQuests.py:102 | `str(file_path).replace('chapters', 'chapters-translate')`; its partners are `OutputPathChanges` and `QuestFileOutput` |

## Left out

- Model loading is not modelled: the MarianMT tokenizer and model, the `Helsinki-NLP` names and the `lru_cache` (translateQuests.py:12-36). It is a stateful foreign call. `translate_to` (line 63) is the uninterpreted parameter `translate: string -> string`, and `lang_to` is folded into it. That parameter is assumed to be a total, deterministic function. Translator failures are not modelled: an exception from the tokenizer or from `model.generate` (lines 32-33) propagates through `re.sub` and `process_file`, and no output file is written.
- Parallel processing is not modelled: `ThreadPoolExecutor`, `as_completed` and `tqdm` in `process_all_files` (lines 107-123). `TranslateFields` describes one file's content read, translated and written in isolation. The files are not always independent: `rglob("*.snbt")` (line 112) also finds files under a `chapters-translate` tree left by an earlier run, and the output of `<root>/chapters/a.snbt` (lines 102-105) can be such a file, which another worker reads (line 81) at a moment that depends on thread scheduling. A path without `chapters` is written over its own input. These path collisions between inputs and outputs are part of the concurrency and file handling that is not modelled.
- File I/O is not modelled: `open`/`read`/`write`, `os.makedirs`, `Path.rglob("*.snbt")` and `input()` in `main` (lines 81-82, 103-105, 112, 125-128). These are effects on the file system and the terminal. The content read and the path string are parameters.
- The debug `print` calls (lines 13, 35, 60, 70, 80, 119) are not modelled; they do not affect any result.
- `str.replace` with an empty pattern is not modelled: `ReplaceAll` requires a non-empty pattern. The program only ever passes `'chapters'` and placeholders, which are non-empty.
- Fields.IsSpace: `\s` is modelled as the characters for which `str.isspace()` holds. This assumes the Unicode-aware default of Python's `re` on `str` patterns, and no Unicode database beyond that fixed list.
- Text and paths are sequences of characters. File encodings (UTF-8 decoding on read, encoding on write) are not modelled.
- Newline translation is not modelled: the file is opened in text mode with the default `newline=None` (lines 81 and 104), so `\r\n` and a lone `\r` are read as `\n`, and `\n` is written as `os.linesep`. `content` is the text after that translation, so a file is written back byte for byte only when its line ends already equal `os.linesep`, and a lone `\r` inside a title body is read as `\n`, which keeps that title from matching.
- SafeTranslation.SafeTranslatePlacesCodes: the placement theorem covers model output whose text between placeholders contains no `<`. Output containing a stray `<` can still form a placeholder together with the model's own text, and is not characterised.
- Fields.MatchAt: the "no match" direction is stated only for patterns whose opening delimiter is not whitespace. This holds for all three patterns of the program (`"`, `"` and `[`).
