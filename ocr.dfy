/** `image_to_text` and its two recognisers, `extract_text_with_pytesseract`
    and `extract_text_with_easyocr`, behind one dispatch on the technique name.
    The engines themselves are foreign; they enter the model as functions. */
module Ocr {
  import opened Common

  /** One EasyOCR detection: the bounding polygon, the recognised text and the
      engine's confidence. */
  datatype Detection = Detection(box: seq<(int, int)>, text: string, confidence: real)

  /** The two recognisers: `pytesseract.image_to_string`, and
      `easyocr.Reader(["en"]).readtext` (reader construction included). Either may raise. */
  datatype Engines = Engines(
    tesseract: Image -> Result<string>,
    readText: Image -> Result<seq<Detection>>)

  const PyTesseract: string := "PyTesseract"
  const EasyOcr: string := "EasyOCR"
  const InvalidTechnique: string := "Invalid OCR technique selected."

  /** The techniques the dispatch recognises. */
  predicate IsKnownTechnique(technique: string)
  {
    technique == PyTesseract || technique == EasyOcr
  }

  /** The text field of every detection, in detection order. */
  function Texts(detections: seq<Detection>): seq<string>
  {
    seq(|detections|, i requires 0 <= i < |detections| => detections[i].text)
  }

  /** Python's `" ".join(parts)`. */
  function SpaceJoin(parts: seq<string>): string
  {
    if |parts| == 0 then ""
    else if |parts| == 1 then parts[0]
    else parts[0] + " " + SpaceJoin(parts[1..])
  }

  /** `extract_text_with_easyocr`: recognise, then join the detected texts. */
  function EasyOcrText(image: Image, engines: Engines): Result<string>
  {
    match engines.readText(image)
    case Err(e) => Err(e)
    case Ok(detections) => Ok(SpaceJoin(Texts(detections)))
  }

  /** `image_to_text`: dispatch on the technique name. */
  function ImageToText(image: Image, technique: string, engines: Engines): Result<string>
  {
    if technique == PyTesseract then engines.tesseract(image)
    else if technique == EasyOcr then EasyOcrText(image, engines)
    else Ok(InvalidTechnique)
  }

  /** The result of a join: empty for no parts, the part itself for one, and
      otherwise every character of every part plus one separator between
      each two neighbours. */
  lemma {:induction false} SpaceJoinLength(parts: seq<string>)
    ensures |parts| == 0 ==> SpaceJoin(parts) == ""
    ensures |parts| == 1 ==> SpaceJoin(parts) == parts[0]
    ensures |parts| > 0 ==> |SpaceJoin(parts)| == TotalLength(parts) + |parts| - 1
    decreases |parts|
  {
    if |parts| > 1 {
      SpaceJoinLength(parts[1..]);
    }
  }

  /** Joining two non-empty runs of parts gives the two joins with one
      separator between them. */
  lemma {:induction false} SpaceJoinConcat(a: seq<string>, b: seq<string>)
    requires |a| > 0 && |b| > 0
    ensures SpaceJoin(a + b) == SpaceJoin(a) + " " + SpaceJoin(b)
    decreases |a|
  {
    assert (a + b)[0] == a[0];
    if |a| == 1 {
      assert (a + b)[1..] == b;
    } else {
      SpaceJoinConcat(a[1..], b);
      assert (a + b)[1..] == a[1..] + b;
    }
  }

  /** Part i sits right after parts 0..i-1 and their separators, and is
      followed by a space unless it is the last part: the parts appear whole
      and in order. */
  lemma {:induction false} SpaceJoinAt(parts: seq<string>, i: nat)
    requires i < |parts|
    ensures var start := TotalLength(parts[..i]) + i;
            start + |parts[i]| <= |SpaceJoin(parts)| &&
            SpaceJoin(parts)[start..start + |parts[i]|] == parts[i] &&
            (i + 1 < |parts| ==>
               start + |parts[i]| < |SpaceJoin(parts)| &&
               SpaceJoin(parts)[start + |parts[i]|] == ' ')
  {
    var rest := parts[i..];
    assert rest[0] == parts[i];
    // the join of the parts from i on begins with part i and, if more follow, a space
    assert SpaceJoin(rest) == parts[i] + (if |rest| > 1 then " " + SpaceJoin(rest[1..]) else "");
    if i == 0 {
      assert rest == parts;
    } else {
      var before := parts[..i];
      assert parts == before + rest;
      SpaceJoinConcat(before, rest);
      SpaceJoinLength(before);
      assert SpaceJoin(parts) == SpaceJoin(before) + " " + SpaceJoin(rest);
    }
  }

  /** Splitting a join on the separator gives back the parts, in order, when
      no part contains a space. */
  lemma {:induction false} SpaceJoinSplit(parts: seq<string>)
    requires |parts| > 0
    requires forall i :: 0 <= i < |parts| ==> ' ' !in parts[i]
    ensures Split(SpaceJoin(parts), ' ') == parts
    decreases |parts|
  {
    if |parts| == 1 {
      SplitWithoutSeparator(parts[0], ' ');
    } else {
      SpaceJoinSplit(parts[1..]);
      SplitAfterPiece(parts[0], ' ', SpaceJoin(parts[1..]));
      assert [parts[0]] + parts[1..] == parts;
    }
  }

  /** The EasyOCR path fails exactly when the engine fails, and otherwise
      gives the detections' texts in detection order separated by single
      spaces: "" for no detection, the one text unchanged for one. */
  lemma EasyOcrTextShape(image: Image, engines: Engines)
    ensures EasyOcrText(image, engines).Err? <==> engines.readText(image).Err?
    ensures engines.readText(image).Err? ==>
              EasyOcrText(image, engines).fault == engines.readText(image).fault
    ensures engines.readText(image).Ok? ==>
              var ds := engines.readText(image).value;
              var text := EasyOcrText(image, engines).value;
              (|ds| == 0 ==> text == "") &&
              (|ds| == 1 ==> text == ds[0].text) &&
              (|ds| > 0 ==> |text| == TotalLength(Texts(ds)) + |ds| - 1) &&
              ((forall i :: 0 <= i < |ds| ==> ' ' !in ds[i].text) && |ds| > 0 ==>
                 Split(text, ' ') == Texts(ds))
  {
    if engines.readText(image).Ok? {
      var ds := engines.readText(image).value;
      var texts := Texts(ds);
      assert |texts| == |ds| && forall i :: 0 <= i < |ds| ==> texts[i] == ds[i].text;
      SpaceJoinLength(texts);
      if (forall i :: 0 <= i < |ds| ==> ' ' !in ds[i].text) && |ds| > 0 {
        SpaceJoinSplit(texts);
      }
    }
  }

  /** Whatever the texts contain, each detection's text appears whole in the
      EasyOCR result: detection i's text starts after the texts of detections
      0..i-1 and one space per earlier detection, and a space follows it
      unless it is the last. */
  lemma EasyOcrTextPositions(image: Image, engines: Engines, i: nat)
    requires engines.readText(image).Ok? && i < |engines.readText(image).value|
    ensures var ds := engines.readText(image).value;
            var text := EasyOcrText(image, engines).value;
            var start := TotalLength(Texts(ds)[..i]) + i;
            start + |ds[i].text| <= |text| &&
            text[start..start + |ds[i].text|] == ds[i].text &&
            (i + 1 < |ds| ==> start + |ds[i].text| < |text| && text[start + |ds[i].text|] == ' ')
  {
    var ds := engines.readText(image).value;
    assert Texts(ds)[i] == ds[i].text;
    SpaceJoinAt(Texts(ds), i);
  }

  /** Dispatch: "PyTesseract" gives exactly what Tesseract gives and depends on
      nothing else; "EasyOCR" gives exactly the EasyOCR path and depends only
      on its detections; any other name gives the fixed fallback text and
      consults neither engine, so any two engine pairs agree on it. */
  lemma ImageToTextDispatch(image: Image, technique: string, e1: Engines, e2: Engines)
    ensures technique == PyTesseract ==> ImageToText(image, technique, e1) == e1.tesseract(image)
    ensures technique == PyTesseract && e1.tesseract(image) == e2.tesseract(image) ==>
              ImageToText(image, technique, e1) == ImageToText(image, technique, e2)
    ensures technique == EasyOcr ==> ImageToText(image, technique, e1) == EasyOcrText(image, e1)
    ensures technique == EasyOcr && e1.readText(image) == e2.readText(image) ==>
              ImageToText(image, technique, e1) == ImageToText(image, technique, e2)
    ensures !IsKnownTechnique(technique) ==>
              ImageToText(image, technique, e1) == Ok(InvalidTechnique) &&
              ImageToText(image, technique, e1) == ImageToText(image, technique, e2)
  {
  }
}
