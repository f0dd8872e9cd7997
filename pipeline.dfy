/** `process_image` (app.py:222-261): the image is read, its OCR text is lower-cased and
    normalized, the allergens occurring in it are collected, the OCR word boxes that contain
    them are outlined on the image, and the stripped text and the found allergens are
    returned. OCR is not modelled: the recognised text and the word boxes are inputs. */
module Pipeline {
  import opened Text
  import opened Cleaning
  import opened Correction
  import opened Matching
  import opened Highlighting

  /** The text the detector searches: the OCR text, lower-cased, then normalized. */
  ghost function Searched(ocrText: string, tokenize: string -> seq<string>,
                          correct: string -> string, dictionary: set<string>): string
  {
    Normalized(Lower(ocrText), tokenize, correct, dictionary)
  }

  /** One detection: the image is read afresh, with nothing drawn on it yet; the reported text
      is the searched text stripped, the found allergens are exactly those of the list that
      occur in the searched text, and the image carries the rectangles for the boxes that
      contain them. */
  method ProcessImage(ocrText: string, boxes: seq<WordBox>, allergens: seq<string>,
                      tokenize: string -> seq<string>, correct: string -> string,
                      dictionary: set<string>)
    returns (image: Image, text: string, found: set<string>)
    ensures fresh(image)
    ensures text == Strip(Searched(ocrText, tokenize, correct, dictionary))
    ensures forall a :: a in found <==>
      a in allergens && IsSubstring(a, Searched(ocrText, tokenize, correct, dictionary))
    ensures image.draws == AllDraws(found, boxes)
  {
    image := new Image();
    var extracted := Lower(ocrText);
    extracted := NormalizeText(extracted, tokenize, correct, dictionary);
    found := FindAllergens(extracted, allergens);
    Highlight(image, boxes, found);
    text := Strip(extracted);
  }

  /** With the whitespace-separated words as tokens and a corrector that turns words into
      words, the final strip changes nothing: the reported text is the searched text. */
  lemma ReportedIsSearched(ocrText: string, correct: string -> string, dictionary: set<string>)
    requires forall w :: IsWord(w) ==> IsWord(correct(w))
    ensures Strip(Searched(ocrText, SplitWords, correct, dictionary))
         == Searched(ocrText, SplitWords, correct, dictionary)
  {
    var words := SplitWords(Cleanup(Lower(ocrText)));
    SplitWordsAreWords(Cleanup(Lower(ocrText)));
    ChosenWords(words, correct, dictionary);
    JoinTrimmed(CorrectAll(words, correct, dictionary));
    StripOfTrimmed(Searched(ocrText, SplitWords, correct, dictionary));
  }

  /** An image without text: nothing is searched and, when no allergen name is empty,
      nothing is found, so none of the word boxes, blank as they may be, is outlined. */
  lemma BlankImage(correct: string -> string, dictionary: set<string>, allergens: seq<string>,
                   boxes: seq<WordBox>)
    requires forall a :: a in allergens ==> a != ""
    ensures Searched("", SplitWords, correct, dictionary) == ""
    ensures Occurring(Searched("", SplitWords, correct, dictionary), allergens) == {}
    ensures AllDraws(Occurring(Searched("", SplitWords, correct, dictionary), allergens), boxes) == []
  {
    assert Lower("") == "";
    CleanFixedPoint("");
    assert TrimLeft("") == "";
    NothingInEmptyText(allergens);
    NothingFoundDrawsNothing(boxes);
  }

  /** The corrector used by the misread-milk example: it repairs "m1lk" and keeps every other
      token. */
  function RepairMilk(w: string): string {
    if w == "m1lk" then "milk" else w
  }

  /** A misread label: OCR reads "m1lk", the corrector turns it into the dictionary word
      "milk", so milk is detected in the text; its word box still reads "m1lk", which does not
      contain "milk", so even a confident box is not outlined. */
  lemma CorrectedButNotOutlined(misread: string, box: WordBox)
    requires misread == "m1lk" && box.text == misread && box.conf == 90
    ensures Searched(misread, SplitWords, RepairMilk, {"milk"}) == "milk"
    ensures Occurring(Searched(misread, SplitWords, RepairMilk, {"milk"}), ["milk"]) == {"milk"}
    ensures AllDraws({"milk"}, [box]) == []
  {
    MisreadRepaired(misread);
    assert OccursAt("milk", "milk", 0);
    MisreadBoxMissed(misread, box);
    assert [box][..0] == [];
  }

  /** "m1lk" is normalized to "milk". */
  lemma MisreadRepaired(misread: string)
    requires misread == "m1lk"
    ensures Searched(misread, SplitWords, RepairMilk, {"milk"}) == "milk"
  {
    LowerOfLowercase(misread);
    MisreadIsClean(misread);
    CleanFixedPoint(misread);
    WordMeans(misread);
    SplitOne(misread);
    LowerOfLowercase("milk");
    assert ChooseWord(misread, RepairMilk, {"milk"}) == "milk";
    assert CorrectAll([misread], RepairMilk, {"milk"}) == ["milk"];
  }

  lemma MisreadIsClean(misread: string)
    requires misread == "m1lk"
    ensures IsClean(misread)
  {
    assert forall i :: 0 <= i < |misread| ==> CleanChar(misread[i]);
  }

  /** The box reading "m1lk" gets no rectangle for milk. */
  lemma MisreadBoxMissed(misread: string, box: WordBox)
    requires misread == "m1lk" && box.text == misread
    ensures BoxDraws({"milk"}, box) == []
  {
    StripOfTrimmed(misread);
    LowerOfLowercase(misread);
    assert BoxWord(box) == misread;
    assert !OccursAt("milk", misread, 0) by {
      assert misread[0..4][1] != "milk"[1];
    }
    assert !IsSubstring("milk", misread);
    NoHitDrawsNothing({"milk"}, box);
  }
}
