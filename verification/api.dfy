/** The validation and precondition chains of `tracker/api/api.py`. Everything
    the bridge reaches outside itself is an input: the merged configuration,
    the polling loop it was handed (if any), what a screen capture returns,
    and what the detector's `calibrate` / `is_calibrated` answer. A call that
    may raise is an `Attempt`. */
module Api {
  import opened Wrappers
  import opened Strings
  import Json
  import Detector

  /** What a call into code outside the bridge did. */
  datatype Attempt<T> = Returned(value: T) | Raised

  /** The errors the bridge reports as `{"error": ...}`. */
  datatype ApiError =
    | EmptyDeckName | NoRegion | NoDetector | RegionCaptureFailed | CaptureFailed
    | InvalidState(name: string) | Failed
  {
    /** The message text the bridge returns; for `Failed` it is the text of
        the exception, which the model does not carry. */
    function Message(): string
    {
      match this
      case EmptyDeckName => "Le nom du deck ne peut pas être vide"
      case NoRegion => "Aucune région configurée. Configurez d'abord la région MUMU."
      case NoDetector => "Détecteur non initialisé."
      case RegionCaptureFailed => "Capture de la région échouée."
      case CaptureFailed => "Capture échouée. Vérifiez que MUMU Player est visible."
      case InvalidState(name) => "État '" + name + "' invalide."
      case Failed => ""
    }
  }

  // ---------------------------------------------------------------------------
  // Decks
  // ---------------------------------------------------------------------------

  datatype Deck = Deck(id: nat, name: string, created: string)

  /** The `decks` table: rows and the next id. */
  datatype Decks = Decks(rows: seq<Deck>, nextId: nat)

  /** `create_deck`: a missing, empty or whitespace-only name is refused
      before storage is touched; otherwise the trimmed name is stored under a
      fresh id and the stored row comes back. */
  function CreateDeck(decks: Decks, name: Option<string>, now: string): (r: (Decks, Result<Deck, ApiError>))
    ensures r.1.Failure? <==> name.None? || IsBlank(name.value, Python)
    ensures r.1.Failure? ==> r.0 == decks && r.1.error == EmptyDeckName
    ensures r.1.Success? ==> r.1.value.name == Strip(name.value, Python)
    ensures r.1.Success? ==> r.0.rows == decks.rows + [r.1.value] && r.1.value.id == decks.nextId
  {
    match name
    case None => (decks, Failure(EmptyDeckName))
    case Some(n) =>
      StripEmptyIffBlank(n, Python);
      if n == "" || Strip(n, Python) == "" then (decks, Failure(EmptyDeckName))
      else
        var d := Deck(decks.nextId, Strip(n, Python), now);
        (Decks(decks.rows + [d], decks.nextId + 1), Success(d))
  }

  /** A stored deck name is never blank and carries no surrounding
      whitespace: trimming it again changes nothing. */
  lemma {:induction false} StoredDeckNameIsTrimmed(decks: Decks, name: Option<string>, now: string)
    requires CreateDeck(decks, name, now).1.Success?
    ensures var n := CreateDeck(decks, name, now).1.value.name;
      n != "" && !IsBlank(n, Python) && Strip(n, Python) == n
  {
    var n := CreateDeck(decks, name, now).1.value.name;
    StripIdempotent(name.value, Python);
    StripEmptyIffBlank(name.value, Python);
    StripEmptyIffBlank(n, Python);
  }

  /** The separators 0x1c..0x1f are whitespace to `strip()`: a name made of
      one is refused as empty... */
  lemma {:induction false} CreateDeckRefusesSeparator(decks: Decks, now: string)
    ensures CreateDeck(decks, Some("\U{1F}"), now).1 == Failure(EmptyDeckName)
  {
    assert IsBlank("\U{1F}", Python);
  }

  /** ... and one trailing a name is cut before it is stored. */
  lemma {:induction false} CreateDeckCutsSeparator(decks: Decks, now: string)
    ensures CreateDeck(decks, Some("a\U{1C}"), now).1 == Success(Deck(decks.nextId, "a", now))
  {
    StripCutsTrailingBlank("a", "\U{1C}", Python);
    assert "a" + "\U{1C}" == "a\U{1C}";
  }

  // ---------------------------------------------------------------------------
  // Capture
  // ---------------------------------------------------------------------------

  /** `config.get("mumu_region")` */
  function Region(config: map<string, Json.Value>): Json.Value
  {
    if "mumu_region" in config then config["mumu_region"] else Json.Null
  }

  /** What the bridge can see of the polling loop it was given. */
  datatype Polling = Polling(mumuDetected: bool, state: Detector.CombatState, detector: Option<DetectorHandle>)

  /** The detector's calibration interface, as answers. */
  datatype DetectorHandle = DetectorHandle(
    isCalibrated: Attempt<(bool, bool, bool)>,
    calibrate: Attempt<bool>)

  /** The calls the bridge made outside itself, in order. */
  datatype Call = Capture(region: Json.Value) | Calibrate(state: string)

  /** `capture_test_frame`: a falsy region is an error with no capture; a
      capture returning `None` is an error; otherwise the frame comes back
      as captured. */
  function CaptureTestFrame<Frame>(config: map<string, Json.Value>, frame: Option<Frame>): (r: (Result<Frame, ApiError>, seq<Call>))
    ensures !Json.Truthy(Region(config)) ==> r == (Failure(NoRegion), [])
    ensures Json.Truthy(Region(config)) ==> r.1 == [Capture(Region(config))]
    ensures Json.Truthy(Region(config)) && frame.None? ==> r.0 == Failure(RegionCaptureFailed)
    ensures Json.Truthy(Region(config)) && frame.Some? ==> r.0 == Success(frame.value)
  {
    var region := Region(config);
    if !Json.Truthy(region) then (Failure(NoRegion), [])
    else
      match frame
      case None => (Failure(RegionCaptureFailed), [Capture(region)])
      case Some(f) => (Success(f), [Capture(region)])
  }

  datatype CaptureStatus = CaptureStatus(mumuDetected: bool, state: string, regionConfigured: bool)

  /** `get_capture_status`: with a polling loop, detection and state mirror
      it; without one, detection comes from a direct window lookup
      (`handle`, `None` when the lookup raised) and the state is `"idle"`.
      The region counts as configured whenever it is not `None`. */
  function GetCaptureStatus(config: map<string, Json.Value>, polling: Option<Polling>, handle: Option<int>): (r: CaptureStatus)
    ensures r.regionConfigured <==> Region(config) != Json.Null
    ensures polling.Some? ==> r.mumuDetected == polling.value.mumuDetected && r.state == polling.value.state.Name()
    ensures polling.None? ==> r.state == "idle"
    ensures polling.None? ==> (r.mumuDetected <==> handle.Some? && handle.value != 0)
  {
    var configured := Region(config) != Json.Null;
    match polling
    case Some(p) => CaptureStatus(p.mumuDetected, p.state.Name(), configured)
    case None => CaptureStatus(handle.Some? && handle.value != 0, "idle", configured)
  }

  /** The two region checks disagree: an empty object counts as configured
      for the status, yet the test capture refuses it as missing. */
  lemma {:induction false} StatusAndCaptureDisagreeOnEmptyRegion<Frame>(frame: Option<Frame>)
    ensures var config := map["mumu_region" := Json.Obj(map[])];
      GetCaptureStatus(config, None, None).regionConfigured
      && CaptureTestFrame(config, frame).0 == Failure(NoRegion)
  {
  }

  /** A truthy region is always a configured one. */
  lemma {:induction false} TruthyRegionIsConfigured(config: map<string, Json.Value>, polling: Option<Polling>, handle: Option<int>)
    requires Json.Truthy(Region(config))
    ensures GetCaptureStatus(config, polling, handle).regionConfigured
  {
  }

  // ---------------------------------------------------------------------------
  // Calibration
  // ---------------------------------------------------------------------------

  /** The three `is_calibrated` flags, pre-queue, in-combat, end-screen. */
  datatype Calibration = Calibration(preQueue: bool, inCombat: bool, endScreen: bool)

  /** `get_calibration_status`: all false without a polling loop or
      detector; otherwise the detector's answers; an error if it raised. */
  function GetCalibrationStatus(polling: Option<Polling>): (r: Result<Calibration, ApiError>)
    ensures polling.None? || polling.value.detector.None? ==> r == Success(Calibration(false, false, false))
    ensures polling.Some? && polling.value.detector.Some? ==>
      match polling.value.detector.value.isCalibrated
      case Raised => r == Failure(Failed)
      case Returned((p, i, e)) => r == Success(Calibration(p, i, e))
  {
    match polling
    case None => Success(Calibration(false, false, false))
    case Some(Polling(_, _, None)) => Success(Calibration(false, false, false))
    case Some(Polling(_, _, Some(d))) =>
      match d.isCalibrated
      case Raised => Failure(Failed)
      case Returned((p, i, e)) => Success(Calibration(p, i, e))
  }

  /** `calibrate_state`. The checks run in a fixed order and the first that
      fails decides the error: no truthy region, no polling loop or
      detector, a capture that returns `None`, a detector that rejects the
      state name. Steps after a failure do not run, so the capture happens
      only once the first two checks pass and `calibrate` is called only with
      a captured image. An exception anywhere becomes an error. */
  function CalibrateState<Image>(config: map<string, Json.Value>, polling: Option<Polling>, stateName: string,
                                 capture: Attempt<Option<Image>>): (r: (Result<string, ApiError>, seq<Call>))
    ensures !Json.Truthy(Region(config)) ==> r == (Failure(NoRegion), [])
    ensures Json.Truthy(Region(config)) && (polling.None? || polling.value.detector.None?) ==>
      r == (Failure(NoDetector), [])
    ensures Json.Truthy(Region(config)) && polling.Some? && polling.value.detector.Some? ==>
      |r.1| >= 1 && r.1[0] == Capture(Region(config))
    ensures r.0.Success? ==> r.0.value == stateName && r.1 == [Capture(Region(config)), Calibrate(stateName)]
    ensures r.0.Success? <==>
      && Json.Truthy(Region(config)) && polling.Some? && polling.value.detector.Some?
      && capture.Returned? && capture.value.Some?
      && polling.value.detector.value.calibrate == Returned(true)
    ensures Calibrate(stateName) in r.1 ==> capture.Returned? && capture.value.Some?
    ensures |r.1| <= 2
  {
    var region := Region(config);
    if !Json.Truthy(region) then (Failure(NoRegion), [])
    else if polling.None? || polling.value.detector.None? then (Failure(NoDetector), [])
    else
      var d := polling.value.detector.value;
      match capture
      case Raised => (Failure(Failed), [Capture(region)])
      case Returned(None) => (Failure(CaptureFailed), [Capture(region)])
      case Returned(Some(_)) =>
        var calls := [Capture(region), Calibrate(stateName)];
        match d.calibrate
        case Raised => (Failure(Failed), calls)
        case Returned(false) => (Failure(InvalidState(stateName)), calls)
        case Returned(true) => (Success(stateName), calls)
  }

  /** A rejected state name is reported with that name, after exactly one
      capture and one calibration attempt. */
  lemma {:induction false} RejectedStateIsNamed<Image>(config: map<string, Json.Value>, polling: Option<Polling>, stateName: string, img: Image)
    requires Json.Truthy(Region(config)) && polling.Some? && polling.value.detector.Some?
    requires polling.value.detector.value.calibrate == Returned(false)
    ensures CalibrateState(config, polling, stateName, Returned(Some(img))) ==
      (Failure(InvalidState(stateName)), [Capture(Region(config)), Calibrate(stateName)])
  {
  }
}
