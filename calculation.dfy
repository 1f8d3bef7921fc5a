/**
 * The calculate operation (main.py `calculate_tax`): validate the mode, resolve the rate from an
 * explicit override, a detected category or the default, then split the amount into net, GST and gross.
 */
module Calculation {
  import opened Options
  import opened Text
  import opened Detection

  /** The rate applied when no rate is given and no active category is detected. */
  const DefaultRate: real := 18.0

  /** The mode of a request that does not name one. */
  const DefaultMode: string := "exclusive"

  datatype Mode = Exclusive | Inclusive

  /** Where the applied rate came from. */
  datatype Source = Provided | Detected | Default

  /** The `source` string of the response. */
  function SourceName(s: Source): string {
    match s
    case Provided => "provided"
    case Detected => "detected"
    case Default => "default"
  }

  /** The HTTP 400 answer "mode must be 'exclusive' or 'inclusive'". */
  datatype Error = InvalidMode

  /** The request body; `description`, `rate` and `mode` may be omitted. */
  datatype Request = Request(amount: real, description: Option<string>, rate: Option<real>, mode: Option<string>)

  datatype Response = Response(
    netAmount: real,
    gstAmount: real,
    grossAmount: real,
    appliedRate: real,
    detectedCategory: Option<string>,
    source: string)

  /** The outcome of rate resolution: the applied rate, its source, and what detection returned (if it ran). */
  datatype Resolution = Resolution(rate: real, source: Source, detected: Option<Category>)

  datatype Amounts = Amounts(net: real, gst: real, gross: real)

  /** The field constraints the request model enforces before the handler runs. */
  predicate ValidRequest(req: Request) {
    req.amount >= 0.0 && (req.rate.Some? ==> 0.0 <= req.rate.value <= 100.0)
  }

  /** Stored categories satisfy the category schema's rate bounds. */
  predicate ValidStore(cats: seq<Category>) {
    forall k :: 0 <= k < |cats| ==> 0.0 <= cats[k].rate <= 100.0
  }

  // ---------------------------------------------------------------------------
  // Mode
  // ---------------------------------------------------------------------------

  /** The mode, lower-cased, must be one of the two known modes. */
  function ParseMode(mode: string): Result<Mode, Error> {
    var m := LowerStr(mode);
    if m == "exclusive" then Ok(Exclusive)
    else if m == "inclusive" then Ok(Inclusive)
    else Err(InvalidMode)
  }

  /** The mode check is insensitive to case: a mode and its lower-cased form parse alike. */
  lemma ParseModeIgnoresCase(mode: string)
    ensures ParseMode(mode) == ParseMode(LowerStr(mode))
  {
    LowerStrIdempotent(mode);
  }

  // ---------------------------------------------------------------------------
  // Rate resolution
  // ---------------------------------------------------------------------------

  /** Explicit rate first; otherwise an active detected category; otherwise the default rate. */
  function Resolve(rate: Option<real>, description: Option<string>, cats: seq<Category>): Resolution {
    if rate.Some? then Resolution(rate.value, Provided, None)
    else
      var detected := Detect(description.GetOr(""), cats);
      if detected.Some? && detected.value.active then Resolution(detected.value.rate, Detected, detected)
      else Resolution(DefaultRate, Default, detected)
  }

  /** An explicit rate is applied as given, reported as "provided", and detection is not run. */
  lemma ResolveExplicit(rate: Option<real>, description: Option<string>, cats: seq<Category>)
    ensures var r := Resolve(rate, description, cats);
            (r.source == Provided <==> rate.Some?) &&
            (rate.Some? ==> r.rate == rate.value && r.detected == None)
  {
  }

  /**
   * Without an explicit rate, the source is "detected" exactly when the first best-scoring category
   * is active, and then its rate is the one applied.
   */
  lemma ResolveDetected(description: Option<string>, cats: seq<Category>)
    ensures var r := Resolve(None, description, cats);
            var text := description.GetOr("");
            (r.source == Detected <==> exists i :: IsFirstBest(cats, text, i) && cats[i].active) &&
            (r.source == Detected ==>
              exists i :: IsFirstBest(cats, text, i) && cats[i].active && r.rate == cats[i].rate && r.detected == Some(cats[i]))
  {
    var text := description.GetOr("");
    DetectIndexCharacterized(text, cats);
    var r := Resolve(None, description, cats);
    if i :| IsFirstBest(cats, text, i) && cats[i].active {
      FirstBestIsDetected(cats, text, i);
    }
    if r.source == Detected {
      var i := DetectIndex(text, cats).value;
      assert IsFirstBest(cats, text, i) && cats[i].active;
    }
  }

  /**
   * Without an explicit rate and without an active match, 18.0 applies with source "default";
   * whatever detection found, active or not, is still reported, and nothing is reported exactly
   * when every category scores zero.
   */
  lemma ResolveFallback(description: Option<string>, cats: seq<Category>)
    ensures var r := Resolve(None, description, cats);
            var text := description.GetOr("");
            (r.source != Detected ==> r.source == Default && r.rate == DefaultRate) &&
            (r.detected.None? <==> forall k :: 0 <= k < |cats| ==> Score(cats[k], text) == 0) &&
            (r.detected.Some? ==> exists i :: IsFirstBest(cats, text, i) && r.detected == Some(cats[i])) &&
            (r.detected.Some? && !r.detected.value.active ==> r.source == Default && r.rate == DefaultRate)
  {
    var text := description.GetOr("");
    DetectIndexCharacterized(text, cats);
    var r := Resolve(None, description, cats);
    if r.detected.Some? {
      var i := DetectIndex(text, cats).value;
      assert IsFirstBest(cats, text, i) && r.detected == Some(cats[i]);
    }
  }

  /** Under the validation constraints the applied rate lies in [0, 100]. */
  lemma ResolveRateInRange(rate: Option<real>, description: Option<string>, cats: seq<Category>)
    requires rate.Some? ==> 0.0 <= rate.value <= 100.0
    requires rate.None? ==> ValidStore(cats)
    ensures 0.0 <= Resolve(rate, description, cats).rate <= 100.0
  {
    if rate.None? {
      var r := DetectIndex(description.GetOr(""), cats);
      if r.Some? {
        assert cats[r.value].rate == Detect(description.GetOr(""), cats).value.rate;
      }
    }
  }

  // ---------------------------------------------------------------------------
  // Amounts
  // ---------------------------------------------------------------------------

  /**
   * The net/GST/gross split. `round2` stands for rounding to two decimal places; exclusive mode keeps
   * the amount as net, inclusive mode keeps it as gross.
   */
  function Compute(amount: real, mode: Mode, rate: real, round2: real -> real): Amounts
    requires rate >= 0.0
  {
    var r := rate / 100.0;
    match mode
    case Exclusive =>
      var gst := round2(amount * r);
      Amounts(amount, gst, round2(amount + gst))
    case Inclusive =>
      var net := round2(amount / (1.0 + r));
      Amounts(net, round2(amount - net), amount)
  }

  /** Rounding switched off. */
  function Exact(x: real): real {
    x
  }

  /** Without rounding, gross is net plus GST and GST is net times the rate, in both modes. */
  lemma ComputeExactIsConsistent(amount: real, mode: Mode, rate: real)
    requires rate >= 0.0
    ensures var a := Compute(amount, mode, rate, Exact);
            a.gross == a.net + a.gst && a.gst == a.net * (rate / 100.0)
  {
    if mode == Inclusive {
      var r := rate / 100.0;
      var net := amount / (1.0 + r);
      assert net * (1.0 + r) == amount;
      assert amount - net == net * r;
    }
  }

  /** Without rounding, extracting the tax from an exclusive-mode gross gives back the original net. */
  lemma ExclusiveThenInclusive(amount: real, rate: real)
    requires rate >= 0.0
    ensures Compute(Compute(amount, Exclusive, rate, Exact).gross, Inclusive, rate, Exact).net == amount
  {
    var r := rate / 100.0;
    var gross := amount + amount * r;
    assert gross == amount * (1.0 + r);
    assert gross / (1.0 + r) == amount;
  }

  /** A zero amount gives zero net, GST and gross whenever rounding keeps zero at zero. */
  lemma ZeroAmountIsZero(mode: Mode, rate: real, round2: real -> real)
    requires rate >= 0.0
    requires round2(0.0) == 0.0
    ensures Compute(0.0, mode, rate, round2) == Amounts(0.0, 0.0, 0.0)
  {
    var r := rate / 100.0;
    assert 0.0 * r == 0.0;
    assert 0.0 / (1.0 + r) == 0.0;
  }

  // ---------------------------------------------------------------------------
  // The whole operation
  // ---------------------------------------------------------------------------

  /**
   * `calculate_tax` without its audit-log write: a bad mode is rejected before anything else; otherwise
   * the resolved rate drives the split, and the response reports the rate, its source and the name of
   * the detected category.
   */
  function Calculate(req: Request, cats: seq<Category>, round2: real -> real): (r: Result<Response, Error>)
    requires ValidRequest(req) && (req.rate.None? ==> ValidStore(cats))
    ensures r.Err? <==> ParseMode(req.mode.GetOr(DefaultMode)).Err?
    ensures r.Ok? ==> 0.0 <= r.value.appliedRate <= 100.0
    ensures r.Ok? ==> r.value.source in ["provided", "detected", "default"]
  {
    match ParseMode(req.mode.GetOr(DefaultMode))
    case Err(e) => Err(e)
    case Ok(mode) =>
      var res := Resolve(req.rate, req.description, cats);
      ResolveRateInRange(req.rate, req.description, cats);
      var a := Compute(req.amount, mode, res.rate, round2);
      var name := match res.detected case Some(c) => Some(c.name) case None => None;
      Ok(Response(a.net, a.gst, a.gross, res.rate, name, SourceName(res.source)))
  }

  /** An explicit rate always overrides detection, whatever the description and the store hold. */
  lemma ExplicitRateOverrides(req: Request, cats: seq<Category>, round2: real -> real)
    requires ValidRequest(req)
    requires req.rate.Some? && ParseMode(req.mode.GetOr(DefaultMode)).Ok?
    ensures var r := Calculate(req, cats, round2);
            r.Ok? && r.value.appliedRate == req.rate.value &&
            r.value.source == "provided" && r.value.detectedCategory == None
  {
  }

  /** A request that names no mode is split as an exclusive-mode request at the applied rate. */
  lemma OmittedModeIsExclusive(req: Request, cats: seq<Category>, round2: real -> real)
    requires ValidRequest(req) && (req.rate.None? ==> ValidStore(cats))
    requires req.mode.None?
    ensures var r := Calculate(req, cats, round2);
            r.Ok? &&
            Amounts(r.value.netAmount, r.value.gstAmount, r.value.grossAmount) ==
            Compute(req.amount, Exclusive, r.value.appliedRate, round2)
  {
    assert LowerStr(DefaultMode) == "exclusive";
  }
}
