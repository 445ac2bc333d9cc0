/** The end-screen text parser of `tracker/capture/ocr.py`.

    The text reader is an input: `Reading` is either the list of
    `(bbox, text, confidence)` detections it returned, in reader order, or the
    fact that it raised. Confidences are real numbers; the clock is a
    parameter (`now`, the ISO-8601 time stamp). */
module Ocr {
  import opened Wrappers
  import opened Strings

  /** `CONFIDENCE_THRESHOLD`: detections below it are ignored. */
  const ConfidenceThreshold: real := 0.5

  const WinPhrases: seq<string> := ["WIN", "WIN!", "YOU WIN", "YOU WIN!", "VICTORY"]
  const LossPhrases: seq<string> := ["LOSE", "LOSE!", "YOU LOSE", "YOU LOSE!", "DEFEAT"]

  /** The sentinel every unresolved field carries. */
  const Unknown: string := "?"

  datatype Point = Point(x: int, y: int)

  /** One reader detection: bounding box, text, confidence. */
  datatype Detection = Detection(box: seq<Point>, text: string, confidence: real)

  /** What `_read_text` produced: the detections, or an exception. */
  datatype Reading = Read(detections: seq<Detection>) | ReaderFailed

  /** The dictionary `extract_end_screen_data` returns; `raw` is the list that
      is serialised into `raw_ocr_data`. */
  datatype EndScreenData = EndScreenData(
    result: string,
    opponent: string,
    firstPlayer: string,
    capturedAt: string,
    raw: seq<(string, real)>)

  /** `text.upper().strip()` */
  function Normalize(text: string): string
  {
    Strip(Upper(text), Python)
  }

  /** What the detections say about the match. */
  datatype Outcome = Win | Loss | Undecided {

    /** The value stored in the `result` field. */
    function Code(): string
    {
      match this
      case Win => "W"
      case Loss => "L"
      case Undecided => Unknown
    }
  }

  /** What a single detection says about the outcome. */
  function Verdict(d: Detection): Outcome
  {
    if d.confidence < ConfidenceThreshold then Undecided
    else
      var phrase := Normalize(d.text);
      if phrase in WinPhrases then Win
      else if phrase in LossPhrases then Loss
      else Undecided
  }

  /** The verdicts of the detections, in reader order. */
  function Verdicts(ds: seq<Detection>): (r: seq<Outcome>)
    ensures |r| == |ds|
    ensures forall i :: 0 <= i < |ds| ==> r[i] == Verdict(ds[i])
  {
    seq(|ds|, i requires 0 <= i < |ds| => Verdict(ds[i]))
  }

  /** The first outcome that decides anything. */
  function FirstDecided(vs: seq<Outcome>): Outcome
  {
    if |vs| == 0 then Undecided
    else if vs[0] != Undecided then vs[0]
    else FirstDecided(vs[1..])
  }

  /** `_parse_result`: the verdict of the first detection, in reader order,
      that has one; undecided when none does. */
  function ParseResult(ds: seq<Detection>): Outcome
  {
    FirstDecided(Verdicts(ds))
  }

  lemma {:induction false} FirstDecidedIsFirst(vs: seq<Outcome>)
    ensures FirstDecided(vs) == Undecided <==> forall i :: 0 <= i < |vs| ==> vs[i] == Undecided
    ensures FirstDecided(vs) != Undecided ==>
      exists i :: 0 <= i < |vs| && vs[i] == FirstDecided(vs) && forall j :: 0 <= j < i ==> vs[j] == Undecided
  {
    if |vs| > 0 && vs[0] == Undecided {
      var tail := vs[1..];
      FirstDecidedIsFirst(tail);
      assert forall i :: 1 <= i < |vs| ==> vs[i] == tail[i - 1];
      var r := FirstDecided(tail);
      if r != Undecided {
        var k :| 0 <= k < |tail| && tail[k] == r && forall j :: 0 <= j < k ==> tail[j] == Undecided;
        assert vs[k + 1] == r;
      }
    }
  }

  /** The outcome is undecided exactly when no detection has a verdict, and
      otherwise it is the verdict of the first detection that has one. */
  lemma {:induction false} ParseResultIsFirstVerdict(ds: seq<Detection>)
    ensures ParseResult(ds) == Undecided <==> forall i :: 0 <= i < |ds| ==> Verdict(ds[i]) == Undecided
    ensures ParseResult(ds) != Undecided ==>
      exists i :: 0 <= i < |ds| && Verdict(ds[i]) == ParseResult(ds) && forall j :: 0 <= j < i ==> Verdict(ds[j]) == Undecided
  {
    var vs := Verdicts(ds);
    FirstDecidedIsFirst(vs);
    if FirstDecided(vs) != Undecided {
      var i :| 0 <= i < |vs| && vs[i] == FirstDecided(vs) && forall j :: 0 <= j < i ==> vs[j] == Undecided;
      assert Verdict(ds[i]) == ParseResult(ds);
    }
  }

  /** The confidence gate and the two phrase sets: a detection below the
      threshold says nothing; at or above it, a winning phrase says W, and a
      losing phrase that is not also a winning one says L. */
  lemma {:induction false} VerdictGate(d: Detection)
    ensures d.confidence < ConfidenceThreshold ==> Verdict(d) == Undecided
    ensures d.confidence >= ConfidenceThreshold ==> (Verdict(d) == Win <==> Normalize(d.text) in WinPhrases)
    ensures d.confidence >= ConfidenceThreshold ==>
      (Verdict(d) == Loss <==> Normalize(d.text) !in WinPhrases && Normalize(d.text) in LossPhrases)
  {
  }

  /** First match wins: once a prefix of the detections decides the outcome,
      whatever the reader lists after it is irrelevant. */
  lemma {:induction false} FirstVerdictWins(ds: seq<Detection>, later: seq<Detection>)
    ensures ParseResult(ds + later) == if ParseResult(ds) != Undecided then ParseResult(ds) else ParseResult(later)
  {
    assert Verdicts(ds + later) == Verdicts(ds) + Verdicts(later);
    FirstDecidedConcat(Verdicts(ds), Verdicts(later));
  }

  lemma {:induction false} FirstDecidedConcat(vs: seq<Outcome>, later: seq<Outcome>)
    ensures FirstDecided(vs + later) == if FirstDecided(vs) != Undecided then FirstDecided(vs) else FirstDecided(later)
  {
    if |vs| == 0 {
      assert vs + later == later;
    } else {
      assert (vs + later)[0] == vs[0];
      assert (vs + later)[1..] == vs[1..] + later;
      FirstDecidedConcat(vs[1..], later);
    }
  }

  /** The gate sits exactly at one half: a winning phrase at confidence 0.5 is
      accepted, and any confidence below it is ignored. */
  lemma {:induction false} ConfidenceGate(box: seq<Point>, text: string, c: real)
    requires Normalize(text) == "WIN"
    ensures ParseResult([Detection(box, text, c)]) == if c >= 0.5 then Win else Undecided
  {
    var d := Detection(box, text, c);
    assert Normalize(text) in WinPhrases;
    var v := if c >= 0.5 then Win else Undecided;
    assert Verdict(d) == v;
    assert Verdicts([d]) == [v];
    assert [v][1..] == [];
    assert FirstDecided([v]) == v;
  }

  /** The phrase match ignores letter case and surrounding whitespace. */
  lemma {:induction false} VerdictIgnoresCaseAndPadding(d: Detection, left: string, right: string)
    requires IsBlank(left, Python) && IsBlank(right, Python)
    ensures Verdict(d.(text := left + Upper(d.text) + right)) == Verdict(d)
  {
    NormalizeIgnoresCaseAndPadding(d.text, left, right);
  }

  lemma {:induction false} NormalizeIgnoresCaseAndPadding(text: string, left: string, right: string)
    requires IsBlank(left, Python) && IsBlank(right, Python)
    ensures Normalize(left + Upper(text) + right) == Normalize(text)
  {
    var padded := left + Upper(text) + right;
    assert Upper(padded) == Upper(left) + Upper(Upper(text)) + Upper(right);
    UpperIdempotent(text);
    assert IsBlank(Upper(left), Python) && IsBlank(Upper(right), Python);
    StripIgnoresPadding(Upper(left), Upper(text), Upper(right), Python);
  }

  /** `_parse_opponent`: not derivable from the detections yet. */
  function ParseOpponent(ds: seq<Detection>): string
  {
    Unknown
  }

  /** `_parse_first_player`: not derivable from the detections yet. */
  function ParseFirstPlayer(ds: seq<Detection>): string
  {
    Unknown
  }

  /** The `(text, confidence)` pairs in reader order, bounding boxes dropped. */
  function RawPayload(ds: seq<Detection>): (r: seq<(string, real)>)
    ensures |r| == |ds|
    ensures forall i :: 0 <= i < |ds| ==> r[i] == (ds[i].text, ds[i].confidence)
  {
    seq(|ds|, i requires 0 <= i < |ds| => (ds[i].text, ds[i].confidence))
  }

  /** `extract_end_screen_data`: never fails. A reader failure degrades to an
      empty detection list; the result is always W, L or `"?"`; opponent and
      first player are always `"?"`; no field is empty when the clock's stamp
      is not. */
  function ExtractEndScreenData(reading: Reading, now: string): (r: EndScreenData)
    ensures r.result == "W" || r.result == "L" || r.result == Unknown
    ensures r.opponent == Unknown && r.firstPlayer == Unknown
    ensures r.capturedAt == now
    ensures reading.ReaderFailed? ==> r.result == Unknown && r.raw == []
    ensures reading.Read? ==> r.result == ParseResult(reading.detections).Code()
    ensures reading.Read? ==> |r.raw| == |reading.detections|
    ensures reading.Read? ==>
      forall i :: 0 <= i < |r.raw| ==> r.raw[i] == (reading.detections[i].text, reading.detections[i].confidence)
  {
    var ds := match reading case Read(detections) => detections case ReaderFailed => [];
    EndScreenData(ParseResult(ds).Code(), ParseOpponent(ds), ParseFirstPlayer(ds), now, RawPayload(ds))
  }

  /** `extract_deck_from_prequeue`: the fallback deck id comes back unchanged
      whatever the image, a missing image included. */
  function ExtractDeckFromPrequeue<Image>(image: Option<Image>, fallback: Option<int>): (r: Option<int>)
    ensures r == fallback
  {
    fallback
  }
}
