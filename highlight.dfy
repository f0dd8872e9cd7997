/** Highlighting (app.py:245-253): every OCR word box with confidence above 40 whose stripped,
    lower-cased text contains a detected allergen gets a red rectangle drawn on the image, once
    for each such allergen. */
module Highlighting {
  import opened Text

  /** The confidence a box must exceed to be highlighted. */
  const ConfidenceThreshold := 40

  /** One entry of Tesseract's word-level data: the recognised text, the box and the
      recognition confidence, already converted to an integer. */
  datatype WordBox = WordBox(text: string, left: int, top: int, width: int, height: int, conf: int)

  /** A colour in OpenCV's blue, green, red channel order. */
  datatype Bgr = Bgr(blue: int, green: int, red: int)

  /** One call of `cv2.rectangle`: two opposite corners, the colour and the line thickness. */
  datatype Rect = Rect(x1: int, y1: int, x2: int, y2: int, color: Bgr, thickness: int)

  const Red := Bgr(0, 0, 255)
  const LineThickness := 2

  /** The box's text as the loop compares it: stripped, then lower-cased. */
  function BoxWord(b: WordBox): string {
    Lower(Strip(b.text))
  }

  /** The rectangle drawn around a box. */
  function Marker(b: WordBox): Rect {
    Rect(b.left, b.top, b.left + b.width, b.top + b.height, Red, LineThickness)
  }

  /** `n` copies of `r`. */
  function Repeat(r: Rect, n: nat): (rs: seq<Rect>)
    ensures |rs| == n
  {
    if n == 0 then [] else Repeat(r, n - 1) + [r]
  }

  /** The found allergens for which a box is drawn: those in the box's word, when the box's
      confidence is above the threshold. */
  ghost function Eligible(found: set<string>, b: WordBox): set<string> {
    set a | a in found && IsSubstring(a, BoxWord(b)) && b.conf > ConfidenceThreshold
  }

  /** The rectangles drawn for one box: its marker once per eligible allergen. */
  ghost function BoxDraws(found: set<string>, b: WordBox): seq<Rect> {
    Repeat(Marker(b), |Eligible(found, b)|)
  }

  /** The rectangles drawn for the boxes, in box order. */
  ghost function AllDraws(found: set<string>, boxes: seq<WordBox>): seq<Rect>
    decreases |boxes|
  {
    if boxes == [] then []
    else AllDraws(found, boxes[..|boxes| - 1]) + BoxDraws(found, boxes[|boxes| - 1])
  }

  /** The image the rectangles are drawn on, seen as the sequence of drawing calls made on it;
      the pixels themselves are not modelled. */
  class Image {
    var draws: seq<Rect>

    constructor ()
      ensures draws == []
    {
      draws := [];
    }

    /** `cv2.rectangle(image, (x1, y1), (x2, y2), color, thickness)`. */
    method Rectangle(x1: int, y1: int, x2: int, y2: int, color: Bgr, thickness: int)
      modifies this
      ensures draws == old(draws) + [Rect(x1, y1, x2, y2, color, thickness)]
    {
      draws := draws + [Rect(x1, y1, x2, y2, color, thickness)];
    }
  }

  /** The highlighting loops: for every box, in order, the inner loop of `HighlightBox`. */
  method Highlight(image: Image, boxes: seq<WordBox>, found: set<string>)
    modifies image
    ensures image.draws == old(image.draws) + AllDraws(found, boxes)
  {
    for i := 0 to |boxes|
      invariant image.draws == old(image.draws) + AllDraws(found, boxes[..i])
    {
      HighlightBox(image, boxes[i], found);
      assert boxes[..i + 1][..i] == boxes[..i];
    }
    assert boxes[..|boxes|] == boxes;
  }

  /** The inner loop for one box: for every found allergen, in an arbitrary order, draw the
      box's marker when the allergen occurs in the box's word and the confidence is above the
      threshold. */
  method HighlightBox(image: Image, box: WordBox, found: set<string>)
    modifies image
    ensures image.draws == old(image.draws) + BoxDraws(found, box)
  {
    var word := Lower(Strip(box.text));
    var remaining := found;
    ghost var drawn: set<string> := {};
    while remaining != {}
      invariant remaining <= found
      invariant forall a :: a in drawn <==>
        a in found && a !in remaining && IsSubstring(a, word) && box.conf > ConfidenceThreshold
      invariant image.draws == old(image.draws) + Repeat(Marker(box), |drawn|)
      decreases |remaining|
    {
      var allergen :| allergen in remaining;
      ghost var hit := IsSubstring(allergen, word) && box.conf > ConfidenceThreshold;
      MarkIfHit(image, box, word, allergen);
      if hit {
        drawn := drawn + {allergen};
      }
      remaining := remaining - {allergen};
    }
    EligibleExactly(found, box, drawn);
  }

  /** One step of the inner loop: draw the box's marker when the allergen occurs in the box's
      word and the confidence is above the threshold. */
  method MarkIfHit(image: Image, box: WordBox, word: string, allergen: string)
    modifies image
    ensures image.draws == old(image.draws) +
      (if IsSubstring(allergen, word) && box.conf > ConfidenceThreshold then [Marker(box)] else [])
  {
    ContainsCorrect(word, allergen);
    if Contains(word, allergen) && box.conf > ConfidenceThreshold {
      image.Rectangle(box.left, box.top, box.left + box.width, box.top + box.height,
                      Red, LineThickness);
    }
  }

  /** A set holding exactly the eligible allergens is the eligible set. */
  lemma EligibleExactly(found: set<string>, b: WordBox, drawn: set<string>)
    requires forall a :: a in drawn <==>
      a in found && IsSubstring(a, BoxWord(b)) && b.conf > ConfidenceThreshold
    ensures drawn == Eligible(found, b)
  {
  }

  /** A box whose confidence is not above the threshold is never highlighted. */
  lemma LowConfidenceDrawsNothing(found: set<string>, b: WordBox)
    requires b.conf <= ConfidenceThreshold
    ensures BoxDraws(found, b) == []
  {
    assert Eligible(found, b) == {};
  }

  /** A box whose word contains no found allergen is never highlighted. */
  lemma NoHitDrawsNothing(found: set<string>, b: WordBox)
    requires forall a :: a in found ==> !IsSubstring(a, BoxWord(b))
    ensures BoxDraws(found, b) == []
  {
    assert Eligible(found, b) == {};
  }

  /** A confident box gets one rectangle per found allergen its word contains. */
  lemma ConfidentBoxDraws(found: set<string>, b: WordBox)
    requires b.conf > ConfidenceThreshold
    ensures |BoxDraws(found, b)| == |set a | a in found && IsSubstring(a, BoxWord(b))|
  {
    assert Eligible(found, b) == set a | a in found && IsSubstring(a, BoxWord(b));
  }

  /** When no allergen was found, nothing is drawn. */
  lemma {:induction false} NothingFoundDrawsNothing(boxes: seq<WordBox>)
    ensures AllDraws({}, boxes) == []
    decreases |boxes|
  {
    if boxes != [] {
      NothingFoundDrawsNothing(boxes[..|boxes| - 1]);
      assert Eligible({}, boxes[|boxes| - 1]) == {};
    }
  }

  /** Rectangle `r` is the marker of a confident box whose word contains a found allergen. */
  ghost predicate MarksHit(found: set<string>, b: WordBox, r: Rect) {
    r == Marker(b) && b.conf > ConfidenceThreshold
    && exists a :: a in found && IsSubstring(a, BoxWord(b))
  }

  /** Every rectangle in one box's drawing marks a hit. */
  lemma BoxDrawsMarkHits(found: set<string>, b: WordBox)
    ensures forall r :: r in BoxDraws(found, b) ==> MarksHit(found, b, r)
  {
    var e := Eligible(found, b);
    if e != {} {
      var a :| a in e;
      RepeatOnly(Marker(b), |e|);
    } else {
      assert BoxDraws(found, b) == [];
    }
  }

  /** A repetition holds only the repeated rectangle. */
  lemma {:induction false} RepeatOnly(r: Rect, n: nat)
    ensures forall x :: x in Repeat(r, n) ==> x == r
  {
    if n > 0 {
      RepeatOnly(r, n - 1);
    }
  }

  /** Soundness: every rectangle drawn marks a confident box whose word contains a found
      allergen. */
  lemma {:induction false} DrawsMarkHits(found: set<string>, boxes: seq<WordBox>)
    ensures forall r :: r in AllDraws(found, boxes) ==>
      exists k :: 0 <= k < |boxes| && MarksHit(found, boxes[k], r)
    decreases |boxes|
  {
    if boxes != [] {
      var init := boxes[..|boxes| - 1];
      var last := boxes[|boxes| - 1];
      DrawsMarkHits(found, init);
      BoxDrawsMarkHits(found, last);
      forall r | r in AllDraws(found, boxes)
        ensures exists k :: 0 <= k < |boxes| && MarksHit(found, boxes[k], r)
      {
        if r in AllDraws(found, init) {
          var k :| 0 <= k < |init| && MarksHit(found, init[k], r);
          assert boxes[k] == init[k];
        } else {
          assert MarksHit(found, boxes[|boxes| - 1], r);
        }
      }
    }
  }

  /** Completeness: every confident box whose word contains a found allergen is marked. */
  lemma {:induction false} HitsAreMarked(found: set<string>, boxes: seq<WordBox>, k: int, a: string)
    requires 0 <= k < |boxes| && boxes[k].conf > ConfidenceThreshold
    requires a in found && IsSubstring(a, BoxWord(boxes[k]))
    ensures Marker(boxes[k]) in AllDraws(found, boxes)
    decreases |boxes|
  {
    var init := boxes[..|boxes| - 1];
    if k < |boxes| - 1 {
      assert init[k] == boxes[k];
      HitsAreMarked(found, init, k, a);
    } else {
      var e := Eligible(found, boxes[k]);
      assert a in e;
      RepeatHas(Marker(boxes[k]), |e|);
    }
  }

  /** A repetition of at least one holds the repeated rectangle. */
  lemma RepeatHas(r: Rect, n: nat)
    requires n > 0
    ensures r in Repeat(r, n)
  {
    assert Repeat(r, n)[n - 1] == r;
  }
}
