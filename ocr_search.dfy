/**
 * The OCR candidate search of `extract_text_from_jpeg`: every image variant
 * is tried under every Tesseract configuration, and the longest stripped
 * text wins, the earliest attempt winning a tie.
 */
module OcrSearch {
  import opened Wrappers
  import opened PyStr
  import opened Threshold

  /** The Tesseract configurations, in the order they are tried. */
  const Configs: seq<string> := [
    "--oem 1 --psm 6",   // uniform block of text
    "--oem 1 --psm 3",   // fully automatic
    "--oem 1 --psm 4",   // single column
    "--oem 1 --psm 7",   // single line
    "--oem 1 --psm 8",   // single word
    "--oem 1 --psm 11",  // sparse text
    "--oem 1 --psm 12"   // sparse text with orientation detection
  ]

  /**
   * The OCR engine (`pytesseract.image_to_string` with `lang='eng'`): the
   * text read from an image under a configuration, or None when the call raises.
   */
  type Engine = (Grid, string) -> Option<string>

  /** The attempts made on one image, in configuration order. */
  function Row(image: Grid, configs: seq<string>): (r: seq<(Grid, string)>)
    ensures |r| == |configs|
    ensures forall j :: 0 <= j < |configs| ==> r[j] == (image, configs[j])
  {
    seq(|configs|, j requires 0 <= j < |configs| => (image, configs[j]))
  }

  /** Every (image, configuration) attempt: images in the outer loop, configurations in the inner. */
  function Attempts(images: seq<Grid>, configs: seq<string>): (r: seq<(Grid, string)>)
  {
    if images == [] then []
    else Attempts(images[..|images| - 1], configs) + Row(images[|images| - 1], configs)
  }

  /** The engine's answer to each attempt, in attempt order. */
  function Outcomes(attempts: seq<(Grid, string)>, ocr: Engine): (r: seq<Option<string>>)
    ensures |r| == |attempts|
    ensures forall k :: 0 <= k < |attempts| ==> r[k] == ocr(attempts[k].0, attempts[k].1)
  {
    seq(|attempts|, k requires 0 <= k < |attempts| => ocr(attempts[k].0, attempts[k].1))
  }

  /** One step of the search: a successful answer replaces the best only when strictly longer once stripped. */
  function Keep(best: string, outcome: Option<string>): string
  {
    match outcome
    case None => best
    case Some(text) => if |Strip(text)| > |best| then Strip(text) else best
  }

  /** The text the search keeps after seeing `outcomes` in order, starting from "". */
  function Best(outcomes: seq<Option<string>>): string
  {
    if outcomes == [] then ""
    else Keep(Best(outcomes[..|outcomes| - 1]), outcomes[|outcomes| - 1])
  }

  /** No successful answer is longer, once stripped, than `s`. */
  ghost predicate Longest(outcomes: seq<Option<string>>, s: string)
  {
    forall k :: 0 <= k < |outcomes| && outcomes[k].Some? ==> |Strip(outcomes[k].value)| <= |s|
  }

  /** Attempt `w` answered `s` once stripped, and every earlier answer is strictly shorter. */
  ghost predicate FirstWinner(outcomes: seq<Option<string>>, s: string, w: int)
  {
    0 <= w < |outcomes| && outcomes[w].Some? && Strip(outcomes[w].value) == s
    && forall k :: 0 <= k < w && outcomes[k].Some? ==> |Strip(outcomes[k].value)| < |s|
  }

  /** The selection rule: the longest stripped answer, taken from the earliest attempt reaching it; "" when none is non-blank. */
  ghost predicate Selects(outcomes: seq<Option<string>>, s: string)
  {
    Longest(outcomes, s) && (s == "" || exists w :: FirstWinner(outcomes, s, w))
  }

  /** The kept text is stripped. */
  lemma {:induction false} BestIsStripped(outcomes: seq<Option<string>>)
    ensures IsStripped(Best(outcomes))
  {
    if outcomes != [] {
      BestIsStripped(outcomes[..|outcomes| - 1]);
      var last := outcomes[|outcomes| - 1];
      if last.Some? {
        StripIsStripped(last.value);
      }
    }
  }

  /** Seeing one more outcome is one more step of the fold. */
  lemma {:induction false} BestSnoc(outcomes: seq<Option<string>>, next: Option<string>)
    ensures Best(outcomes + [next]) == Keep(Best(outcomes), next)
  {
    assert (outcomes + [next])[..|outcomes|] == outcomes;
  }

  /** One step of the search keeps the selection rule. */
  lemma {:induction false} KeepSelects(prefix: seq<Option<string>>, b: string, next: Option<string>)
    requires Selects(prefix, b)
    ensures Selects(prefix + [next], Keep(b, next))
  {
    var outcomes := prefix + [next];
    var n := |prefix|;
    assert forall k :: 0 <= k < n ==> outcomes[k] == prefix[k];
    if next.Some? && |Strip(next.value)| > |b| {
      assert FirstWinner(outcomes, Keep(b, next), n);
    } else if b != "" {
      var w :| FirstWinner(prefix, b, w);
      assert FirstWinner(outcomes, b, w);
    }
  }

  /** The search's fold meets the selection rule. */
  lemma {:induction false} BestSelects(outcomes: seq<Option<string>>)
    ensures Selects(outcomes, Best(outcomes))
  {
    if outcomes != [] {
      var n := |outcomes| - 1;
      BestSelects(outcomes[..n]);
      KeepSelects(outcomes[..n], Best(outcomes[..n]), outcomes[n]);
      assert outcomes[..n] + [outcomes[n]] == outcomes;
    }
  }

  /** The selection rule determines the text: nothing else satisfies it. */
  lemma {:induction false} SelectsUnique(outcomes: seq<Option<string>>, s: string)
    requires Selects(outcomes, s)
    ensures s == Best(outcomes)
  {
    BestSelects(outcomes);
    var b := Best(outcomes);
    if s != "" && b != "" {
      var w :| FirstWinner(outcomes, s, w);
      var v :| FirstWinner(outcomes, b, v);
      assert |s| == |b|;
      assert w == v;
    }
  }

  /** The search yields "" exactly when every attempt raised or read only whitespace. */
  lemma {:induction false} BestEmpty(outcomes: seq<Option<string>>)
    ensures Best(outcomes) == "" <==>
            forall k :: 0 <= k < |outcomes| && outcomes[k].Some? ==> Strip(outcomes[k].value) == ""
  {
    BestSelects(outcomes);
    var b := Best(outcomes);
    if b != "" {
      var w :| FirstWinner(outcomes, b, w);
    }
  }

  /** The search's attempts, laid out row by row. */
  lemma {:induction false} AttemptsAt(images: seq<Grid>, configs: seq<string>, i: int, j: int)
    requires 0 <= i < |images| && 0 <= j < |configs|
    ensures |Attempts(images, configs)| == |images| * |configs|
    ensures i * |configs| + j < |images| * |configs|
    ensures Attempts(images, configs)[i * |configs| + j] == (images[i], configs[j])
  {
    var n, m := |images|, |configs|;
    var front := images[..n - 1];
    AttemptsLength(front, configs);
    assert (n - 1) * m + m == n * m;
    if i < n - 1 {
      AttemptsAt(front, configs, i, j);
      assert front[i] == images[i];
    } else {
      assert i * m + j == (n - 1) * m + j;
    }
  }

  /** There are as many attempts as images times configurations. */
  lemma {:induction false} AttemptsLength(images: seq<Grid>, configs: seq<string>)
    ensures |Attempts(images, configs)| == |images| * |configs|
  {
    if images != [] {
      AttemptsLength(images[..|images| - 1], configs);
      assert (|images| - 1) * |configs| + |configs| == |images| * |configs|;
    }
  }

  /**
   * The source's search makes exactly 14 attempts: the enhanced image under
   * the seven configurations in list order, then the binary image likewise.
   */
  lemma {:induction false} SourceAttemptOrder(enhanced: Grid, binary: Grid)
    ensures |Attempts([enhanced, binary], Configs)| == 14
    ensures forall j :: 0 <= j < 7 ==>
              Attempts([enhanced, binary], Configs)[j] == (enhanced, Configs[j])
              && Attempts([enhanced, binary], Configs)[7 + j] == (binary, Configs[j])
  {
    var images := [enhanced, binary];
    assert images[..1] == [enhanced];
    assert Attempts(images[..1][..0], Configs) == [];
    assert Attempts(images, Configs) == Row(enhanced, Configs) + Row(binary, Configs);
  }

  /** One more configuration tried on the current image is one more step of the fold. */
  lemma {:induction false} SearchStep(done: seq<(Grid, string)>, image: Grid, configs: seq<string>, j: int, ocr: Engine)
    requires 0 <= j < |configs|
    ensures Best(Outcomes(done + Row(image, configs[..j + 1]), ocr))
            == Keep(Best(Outcomes(done + Row(image, configs[..j]), ocr)), ocr(image, configs[j]))
  {
    var before := Outcomes(done + Row(image, configs[..j]), ocr);
    assert done + Row(image, configs[..j + 1]) == done + Row(image, configs[..j]) + [(image, configs[j])];
    assert Outcomes(done + Row(image, configs[..j + 1]), ocr) == before + [ocr(image, configs[j])];
    BestSnoc(before, ocr(image, configs[j]));
  }

  /**
   * The nested loop of the search (images outer, configurations inner):
   * a raising call is skipped, and the stripped answer replaces the best
   * so far only when strictly longer.
   */
  method Search(images: seq<Grid>, configs: seq<string>, ocr: Engine) returns (best: string)
    ensures best == Best(Outcomes(Attempts(images, configs), ocr))
  {
    best := "";
    for i := 0 to |images|
      invariant best == Best(Outcomes(Attempts(images[..i], configs), ocr))
    {
      ghost var done := Attempts(images[..i], configs);
      assert images[..i + 1][..i] == images[..i];
      assert Attempts(images[..i + 1], configs) == done + Row(images[i], configs);
      assert configs[..0] == [] && done + Row(images[i], configs[..0]) == done;
      for j := 0 to |configs|
        invariant best == Best(Outcomes(done + Row(images[i], configs[..j]), ocr))
      {
        var outcome := ocr(images[i], configs[j]);
        SearchStep(done, images[i], configs, j, ocr);
        match outcome {
          case None =>
          case Some(text) =>
            if |Strip(text)| > |best| {
              best := Strip(text);
            }
        }
      }
      assert configs[..|configs|] == configs;
    }
    assert images[..|images|] == images;
  }

  /**
   * The text `extract_text_from_jpeg` returns, given the enhanced image
   * (None when opening or preprocessing the file raised).
   */
  function ExtractedText(enhanced: Option<Grid>, ocr: Engine): string
  {
    match enhanced
    case None => ""
    case Some(image) => Best(Outcomes(Attempts([image, Binarize(image)], Configs), ocr))
  }

  /**
   * `extract_text_from_jpeg` after preprocessing: threshold the enhanced
   * image, search both variants; any failure before the search yields "".
   * `ExtractedText` is its specification.
   */
  method ExtractText(enhanced: Option<Grid>, ocr: Engine) returns (text: string)
    ensures text == ExtractedText(enhanced, ocr)
    ensures IsStripped(text)
    ensures enhanced.None? ==> text == ""
  {
    match enhanced {
      case None =>
        text := "";
      case Some(image) =>
        var binary := Binarize(image);
        text := Search([image, binary], Configs, ocr);
        BestIsStripped(Outcomes(Attempts([image, binary], Configs), ocr));
    }
  }
}
