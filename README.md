# Allergen detection core, modelled in Dafny

The system is a small Flask application in `app.py`. It reads the text on a food label with OCR
and looks for allergens in that text. The allergens come from a list kept in an XML file. Each
OCR word box that contains a found allergen gets a red rectangle on the image. This project
models the detection core of `app.py` and proves properties of it:

- `normalize_text` (module `Cleaning` for the regular-expression cleanup, module `Correction`
  for the spelling-correction loop and the final `' '.join`);
- the detection loop of `process_image` (module `Matching`);
- the highlighting loops of `process_image`, drawing on an `Image` object whose list of drawn
  rectangles is updated in place (module `Highlighting`);
- `process_image` as a whole (module `Pipeline`);
- `save_allergen`, `remove_allergen` and the add/remove branches of `manage_allergens`, on the
  allergen list read from the XML file (module `Store`);
- the string primitives these use: `str.lower()`, `str.strip()` and `in` on strings
  (module `Text`).

The cleanup deletes the characters of the class `[+@â€”_]` exactly as written at app.py:204:
`+`, `@`, `â` (U+00E2), `€` (U+20AC), `”` (U+201D, right double quotation mark) and `_`. The three
middle characters are what the UTF-8 bytes of an em dash look like when read as Windows-1252.
An em dash itself (U+2014) is therefore not in the class, and the model keeps it, as the code
does.

`process_image` (app.py:240) loops over the module-level list `allergens`. That list is loaded
once, when the module starts (app.py:65). The assignment `allergens = load_allergens()` inside
`manage_allergens` (app.py:90) binds a local name and so does not refresh it: names added or
removed while the application runs are not searched for until it restarts. The model passes
the list to `ProcessImage` as a parameter, since where it comes from does not change what the
detection loop does with it.

The OCR engine, the spelling corrector and the word corpus cannot be seen from here, so they are
parameters:

- the recognised text and the word boxes (text, position, size, confidence) are inputs;
- TextBlob's word tokenizer is a function `tokenize`, and its corrector is a function `correct`;
- the NLTK word list is a set `dictionary`.

Several lemmas use `Correction.SplitWords` in place of the tokenizer. It splits on whitespace,
like `str.split()`. It stands in for TextBlob's tokenizer and is not claimed to match it.

## Model

| member | source | states |
|---|---|---|
| `Text.Lower` | app.py:233 | `str.lower()` on ASCII letters, character by character; the result has the length of the input (`Text.LowerOfLowercase`, `Text.LowerIdempotent` say more) |
| `Text.Strip` | app.py:206 | `str.strip()`: the result neither starts nor ends with whitespace (`Text.StripIsSlice` and `Text.StripRemovesWhitespace` pin down which slice it is) |
| `Text.Contains` | app.py:241 | Python's `needle in hay`, as a scan over the start positions; `Text.ContainsCorrect` proves it equal to the occurrence predicate |
| `Text.StripIsSlice` | app.py:206 | `strip()` returns one contiguous slice of the text, the one that starts after the leading whitespace |
| `Text.StripRemovesWhitespace` | app.py:206 | everything `strip()` drops, before or after that slice, is whitespace |
| `Text.StripIdempotent` | app.py:261 | stripping an already stripped text changes nothing |
| `Text.ContainsCorrect` | app.py:241 | the substring scan answers true exactly when the name occurs as a contiguous slice of the text (both directions) |
| `Text.SubstringTransitive` | app.py:241 | `in` on strings is transitive |
| `Text.NothingInEmpty` | app.py:241 | only the empty string occurs in the empty text |
| `Text.LowerIdempotent` | app.py:213 | lower-casing twice is the same as lower-casing once |
| `Cleaning.RemoveNoise` | app.py:204 | `re.sub(r'[+@â€”_]', '', text)`: the text with every character of the class deleted (properties in the next three rows) |
| `Cleaning.RemoveNoiseChars` | app.py:204 | no `+`, `@`, `â`, `€`, `”` or `_` is left after the first substitution |
| `Cleaning.RemoveNoiseAppend` | app.py:204 | deleting the noise characters commutes with concatenation, so each character is handled on its own |
| `Cleaning.RemoveNoiseFixed` | app.py:204 | a text without noise characters passes through the first substitution unchanged |
| `Cleaning.CollapseWhitespace` | app.py:205 | `re.sub(r'\s+', ' ', text)`: every whitespace run becomes one space (the `CollapseRuns` rows below) |
| `Cleaning.CollapsePunct` | app.py:206 | `re.sub(r'[.,]+', '.', text)`: every run of periods and commas becomes one period |
| `Cleaning.Cleanup` | app.py:204-206 | the three substitutions in order, then `strip()` (characterised by `Cleaning.CleanupIsClean` and `Cleaning.CleanFixedPoint`) |
| `Cleaning.CollapseRunsSeparated` | app.py:205-206 | after replacing every run of a class by one character of that class, no two neighbours are both in the class |
| `Cleaning.CollapseRunsKeepsOthers` | app.py:205-206 | collapsing the runs of a class keeps every character outside the class, in order |
| `Cleaning.CollapseRunsKeepsApart` | app.py:205-206 | collapsing the runs of `[.,]` does not make two whitespace characters neighbours |
| `Cleaning.CollapseRunsFixed` | app.py:205-206 | a text with single, canonical separators is left unchanged by collapsing |
| `Cleaning.CleanupIsClean` | app.py:204-206 | the cleaned text has no noise characters, no comma, only single spaces as whitespace, no two adjacent `.`/`,` and no whitespace at either end |
| `Cleaning.CleanMeans` | app.py:204-206 | what a clean text is, spelled out character by character |
| `Cleaning.CleanFixedPoint` | app.py:204-206 | the cleanup leaves a text unchanged exactly when the text is clean (both directions) |
| `Cleaning.CleanupIdempotent` | app.py:204-206 | cleaning twice is the same as cleaning once |
| `Correction.SplitWords` | app.py:210-211 | the whitespace tokenizer used in place of `TextBlob(text).words`: the maximal runs of non-whitespace, in order |
| `Correction.JoinSpace` | app.py:219 | `' '.join(words)`: the words with one space between neighbours |
| `Correction.ChooseWord` | app.py:212-216 | the corrector's suggestion when its lower-cased form is a dictionary word, otherwise the token |
| `Correction.CorrectAll` | app.py:211-216 | `ChooseWord` applied to every token, in order; `Correction.CorrectWords` is the loop that computes it |
| `Correction.WordMeans` | app.py:210-211 | a token of the whitespace split is exactly a non-empty text without whitespace |
| `Correction.SplitWordsAreWords` | app.py:210-211 | every token of the whitespace split is such a word |
| `Correction.JoinSplit` | app.py:210-219 | for a clean text, joining its words with single spaces gives the text back |
| `Correction.SplitJoin` | app.py:219 | joining words with single spaces and splitting again gives the same words |
| `Correction.JoinTrimmed` | app.py:219 | a single-space join of words neither starts nor ends with whitespace |
| `Correction.CorrectWords` | app.py:209-216 | one output word per token, in order; the suggestion replaces the token exactly when its lower-cased form is in the dictionary, and otherwise the token is kept |
| `Correction.NormalizeText` | app.py:196-220 | the method computes `Normalized`: the cleanup, then tokenizing, then correcting, then the single-space join |
| `Correction.KeepAll` | app.py:212-216 | a corrector whose accepted suggestions are always the word itself leaves every token as it is |
| `Correction.DegradesToCleanup` | app.py:196-220 | with such a corrector and the whitespace tokenizer, normalization is exactly the regular-expression cleanup |
| `Correction.NormalizedWords` | app.py:209-219 | when corrections turn words into words, splitting the normalized text gives back the corrected tokens one for one |
| `Matching.Occurring` | app.py:239-242 | the set of listed allergens whose names occur in the text; `Matching.FindAllergens` computes it |
| `Matching.FindAllergens` | app.py:239-242 | the found set holds exactly the allergens of the list whose names occur in the text (both directions) |
| `Matching.NothingInEmptyText` | app.py:239-242 | an empty text finds no allergen with a non-empty name |
| `Matching.EmptyNameAlwaysFound` | app.py:239-242 | an allergen whose name is empty is found in every text |
| `Matching.OccurringMonotone` | app.py:239-242 | a text that contains another text finds everything that text finds |
| `Matching.OccurringByMembers` | app.py:239-242 | the found set depends only on which names are in the list, not on their order or repetition |
| `Highlighting.BoxWord` | app.py:249 | the box's text stripped and then lower-cased, as the loop compares it |
| `Highlighting.Marker` | app.py:252-253 | the red (0, 0, 255) rectangle of thickness 2 from `(left, top)` to `(left + width, top + height)` |
| `Highlighting.Image.constructor` | app.py:230 | a freshly read image carries no rectangles; `Pipeline.ProcessImage` starts from one |
| `Highlighting.Image.Rectangle` | app.py:253 | `cv2.rectangle` appends exactly one rectangle and changes nothing else |
| `Highlighting.MarkIfHit` | app.py:251-253 | one rectangle around the box is drawn exactly when the allergen occurs in the box's word and the confidence is above 40 |
| `Highlighting.HighlightBox` | app.py:249-253 | for one box, one red rectangle of thickness 2 around the box is drawn per found allergen occurring in the stripped, lower-cased word, and only when the confidence is above 40 |
| `Highlighting.Highlight` | app.py:248-253 | the boxes are handled in order; the image receives, after its old rectangles, exactly the rectangles of each box in turn |
| `Highlighting.LowConfidenceDrawsNothing` | app.py:251 | a box with confidence 40 or below is never outlined |
| `Highlighting.NoHitDrawsNothing` | app.py:251 | a box whose word contains no found allergen is never outlined |
| `Highlighting.ConfidentBoxDraws` | app.py:250-253 | a confident box gets as many rectangles as there are found allergens in its word |
| `Highlighting.NothingFoundDrawsNothing` | app.py:248-253 | with no allergen found, no rectangle is drawn |
| `Highlighting.DrawsMarkHits` | app.py:248-253 | every rectangle drawn surrounds some confident box whose word contains a found allergen |
| `Highlighting.HitsAreMarked` | app.py:248-253 | every confident box whose word contains a found allergen is outlined |
| `Pipeline.ProcessImage` | app.py:222-261 | the image starts with nothing drawn on it; the returned text is the lower-cased, normalized OCR text, stripped; the found allergens are exactly those of the list occurring in that searched text; the image receives the rectangles of the highlighting loops |
| `Pipeline.ReportedIsSearched` | app.py:261 | with the whitespace tokenizer and a corrector that turns words into words, the final `strip()` changes nothing |
| `Pipeline.BlankImage` | app.py:233-253 | an image without text gives an empty searched text, finds no allergen with a non-empty name, and outlines none of its word boxes |
| `Pipeline.CorrectedButNotOutlined` | app.py:236-253 | a label misread as "m1lk" that the corrector repairs is reported as containing milk, while its word box, which still reads "m1lk", is not outlined |
| `Store.RemoveFirst` | app.py:58-62 | the list without its first entry equal to the name, or the list itself when there is none (`Store.RemoveFirstAt`, `Store.RemoveFirstAbsent`, `Store.RemoveFirstMultiset`) |
| `Store.Submitted` | app.py:86 | the submitted name stripped, then lower-cased |
| `Store.AddAllergen` | app.py:89-95 | a name already listed leaves the list alone; any other name is saved |
| `Store.SaveAllergen` | app.py:38-48 | the lower-cased name is appended as the last entry, and the old entries are kept in front of it |
| `Store.RemoveAllergen` | app.py:50-62 | the loop removes the first entry equal to the lower-cased name and stops; with no such entry the list is unchanged |
| `Store.RemoveFirstMultiset` | app.py:58-62 | removal takes out one copy of the name when there is one, and no other entry |
| `Store.RemovedIsGone` | app.py:58-62 | in a list without duplicates, a removed name is no longer in the list |
| `Store.ManageAllergens` | app.py:83-101 | the submitted name is stripped and lower-cased; "add" saves it unless it is already listed, "remove" removes it, any other action leaves the list alone |
| `Store.AddedIsPresent` | app.py:89-95 | after "add" the name is listed, and the list is either unchanged or has the name appended |
| `Store.AddIdempotent` | app.py:89-95 | adding the same name twice is the same as adding it once |
| `Store.AddKeepsDistinct` | app.py:89-95 | "add" never creates a duplicate entry |
| `Store.RemoveUndoesAdd` | app.py:89-99 | removing a name right after adding it restores the list |

## Left out

- Flask routes, templates, redirects, file uploads, camera capture and the served files: these are web plumbing, outside the detection core.
- The messages set in `manage_allergens` (app.py:92-99): the redirect discards them, so they affect nothing.
- Reading and writing the image files (`cv2.imread`, `cv2.imwrite`) and the output path: I/O. The image is modelled only as the list of rectangles drawn on it, not as pixels.
- Tesseract OCR (`image_to_string`, `image_to_data`): a foreign call. Its results are inputs.
- TextBlob tokenization and correction, and the NLTK word corpus: foreign code. They are the parameters `tokenize`, `correct` and `dictionary`. TextBlob's own punctuation handling is not modelled.
- Parsing and writing `allergens.xml` and `load_allergens`: I/O. The store operations take the list as read and return the list as written, and every entry is a string. An `allergen` element without text, which `load_allergens` (app.py:36) reads back as `None`, is not modelled. The program's own add path creates one: a name that strips to "" is saved as an empty element (app.py:47), which is written as `<allergen />` and read back as `None`. After that `None == ""` never holds at app.py:59, and `"" in [None]` is false at app.py:91. Once such a list is loaded at startup, `None in extracted_text` at app.py:241 raises `TypeError` on every detection.
- Store.AddIdempotent: proved for the list as the model passes it from one request to the next. Across two real requests the list is read back from the file, and for a name that strips to "" the second add appends another empty element, as the line above explains.
- Store.AddKeepsDistinct: proved for the list model only. Repeated blank adds through the file give several empty elements, all read back as `None`.
- Store.RemoveUndoesAdd: proved for the list model only. Through the file, a blank name that was just added is read back as `None` and is never removed.
- Matching.EmptyNameAlwaysFound: states what `in` does with an empty name. `load_allergens` never returns "" (it returns `None` for an empty element), so this case stands for a list whose names come from elsewhere.
- `request.form.get` returning `None` for a missing field: the model takes the submitted name and action as given. Actions other than "add" and "remove" are the `Other` case.
- `Text.Lower`: lower-cases ASCII letters only, because Python's Unicode case mapping is not modelled.
- `Text.IsWhitespace`: covers the six ASCII whitespace characters, not all of Unicode `\s`.
- `Highlighting.HighlightBox`: the confidence is taken as an integer already, so the `int()` conversion of the OCR confidence field is not modelled.
- The iteration order of `found_allergens` and the order of `list(found_allergens)`: Python leaves both unspecified. Found allergens are a set. Within one box every rectangle is the same, so the drawn sequence does not depend on that order.
- Pipeline.ProcessImage: the allergen list is a parameter. The model does not tie it to the startup snapshot (app.py:65).
