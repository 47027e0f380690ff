/** The Islandora settings form: validateForm(), which checks the broker URL,
    the JWT expiry expression and the Gemini URL with its pseudo-bundle
    selection, and submitForm(), which decides what is persisted.

    The three foreign calls are parameters (`Oracles`): the STOMP broker probe,
    PHP's strtotime(), and the Gemini URL parse plus client probe. Each oracle
    receives the very value the form passes to the foreign code. */
module SettingsForm {
  import opened PhpStrings
  import opened PhpArrays
  import opened TimeUnitPattern

  datatype Option<T> = None | Some(value: T)

  /** The form elements an error can be attached to. */
  datatype Field = BrokerUrl | JwtExpiry | GeminiUrl {
    /** Position of the field's check in validateForm. */
    function Rank(): nat {
      match this
      case BrokerUrl => 0
      case JwtExpiry => 1
      case GeminiUrl => 2
    }
  }

  /** The broker_url error; the message quotes the URL as submitted. */
  datatype BrokerError = BrokerUnreachable(brokerUrl: string)

  /** The four jwt_expiry errors, one per step of the cascade. The first
      quotes the normalised expiry string. */
  datatype ExpiryError =
    | NotATimeExpression(expiry: string)
    | NegativeInterval
    | NoNumericInterval
    | NoTimeUnit

  /** The gemini_url errors; the first two quote the trimmed URL. */
  datatype GeminiError =
    | CannotParseUrl(url: string)
    | CannotConnectUrl(url: string)
    | GeminiUrlRequired

  /** Every error validateForm can raise, grouped by the check raising it. */
  datatype ErrorKind =
    | OnBroker(brokerError: BrokerError)
    | OnExpiry(expiryError: ExpiryError)
    | OnGemini(geminiError: GeminiError)
  {
    /** The field whose error message this is. */
    function FieldOf(): Field {
      match this
      case OnBroker(_) => BrokerUrl
      case OnExpiry(_) => JwtExpiry
      case OnGemini(_) => GeminiUrl
    }
  }

  /** One setErrorByName() call. */
  datatype FieldError = FieldError(field: Field, kind: ErrorKind)

  /** How Url::fromUri, GeminiClient::create and findByUri end: normally, with
      an InvalidArgumentException, or with a ConnectException. */
  datatype ProbeOutcome = Reached | InvalidArgument | ConnectFailure

  /** The foreign calls, each a function of the value handed to it. */
  datatype Oracles = Oracles(
    brokerConnects: string -> bool,
    timeParses: string -> bool,
    geminiProbe: string -> ProbeOutcome)

  /** The submitted values validateForm and submitForm read. */
  datatype FormInput = FormInput(
    brokerUrl: string,
    jwtExpiry: string,
    geminiUrl: string,
    pseudoBundles: PhpArray)

  /** The values submitForm writes to the islandora.settings configuration. */
  datatype SavedSettings = SavedSettings(
    brokerUrl: string,
    jwtExpiry: string,
    geminiUrl: string,
    pseudoBundles: PhpArray)

  /* --------------------------------------------------------- broker check */

  /** A failed subscribe/unsubscribe round trip reports the broker URL as given. */
  function CheckBroker(brokerUrl: string, connects: string -> bool): (r: Option<BrokerError>)
    ensures r == None <==> connects(brokerUrl)
    ensures r.Some? ==> r.value == BrokerUnreachable(brokerUrl)
  {
    if connects(brokerUrl) then None else Some(BrokerUnreachable(brokerUrl))
  }

  /* --------------------------------------------------------- expiry check */

  /** The expiry string every check looks at: trimmed, then lower-cased. */
  function NormalizeExpiry(raw: string): (e: string)
    ensures IsTrimmed(e)
    ensures forall i :: 0 <= i < |e| ==> !IsUpperAscii(e[i])
  {
    LowerKeepsTrimmed(Trim(raw));
    ToLower(Trim(raw))
  }

  /** Normalising removes nothing but padding: the lower-cased input is the
      normalised expiry with trim characters (space, tab, LF, CR, NUL, VT) on
      either side. */
  lemma NormalizeStripsOnlyPadding(raw: string)
    ensures IsPaddedInfix(NormalizeExpiry(raw), ToLower(raw))
  {
    LowerCaseKeepsPadding(raw);
  }

  /** A string already trimmed and without capitals is its own normal form,
      so normalising twice changes nothing. */
  lemma NormalizeFixed(e: string)
    requires IsTrimmed(e)
    requires forall i :: 0 <= i < |e| ==> !IsUpperAscii(e[i])
    ensures NormalizeExpiry(e) == e
  {
    assert [] + e + [] == e;
    TrimOfPadded([], e, []);
    ToLowerFixed(e);
  }

  /** substr($expiry, 0, 1) == "-": only the first character is looked at.
      substr() of an empty string is "", which is never "-". */
  predicate StartsWithMinus(e: string): (b: bool)
    ensures b <==> e[..if |e| < 1 then |e| else 1] == "-"
  {
    |e| > 0 && e[0] == '-'
  }

  /** The leading integer intval() reads is zero, or there is none. */
  predicate LeadingMagnitudeIsZero(e: string) {
    forall i :: 0 <= i < |LeadingDigits(e)| ==> LeadingDigits(e)[i] == '0'
  }

  /** The expiry cascade on the normalised string `e`, given whether
      strtotime() accepted it: not a time expression, then negative, then
      zero, then no unit; the first check that fails decides the one error. */
  function ExpiryVerdict(e: string, parses: bool): (r: Option<ExpiryError>)
    ensures r == Some(NotATimeExpression(e)) <==> !parses
    ensures r == None <==>
      parses && !StartsWithMinus(e) && !LeadingMagnitudeIsZero(e) && MatchesUnitPattern(e)
  {
    if !parses then Some(NotATimeExpression(e))
    else if StartsWithMinus(e) then Some(NegativeInterval)
    else if IntVal(e) == 0 then Some(NoNumericInterval)
    else if !ContainsTimeUnit(e) then Some(NoTimeUnit)
    else None
  }

  /** The jwt_expiry check: normalise, ask strtotime(), run the cascade. */
  function CheckExpiry(raw: string, timeParses: string -> bool): (r: Option<ExpiryError>)
    ensures r == Some(NotATimeExpression(NormalizeExpiry(raw))) <==> !timeParses(NormalizeExpiry(raw))
    ensures var e := NormalizeExpiry(raw);
      r == None <==> timeParses(e) && !StartsWithMinus(e) && !LeadingMagnitudeIsZero(e) && MatchesUnitPattern(e)
  {
    var e := NormalizeExpiry(raw);
    ExpiryVerdict(e, timeParses(e))
  }

  /** Each verdict of the cascade, stated by the conditions under which it is
      given: every earlier check passed and this one failed. The unit check is
      stated by the regular-expression semantics and the zero check by the
      digits intval() reads. */
  lemma ExpiryCascade(e: string, parses: bool)
    ensures var r := ExpiryVerdict(e, parses);
      && (r == Some(NotATimeExpression(e)) <==> !parses)
      && (r == Some(NegativeInterval) <==> parses && StartsWithMinus(e))
      && (r == Some(NoNumericInterval) <==>
            parses && !StartsWithMinus(e) && LeadingMagnitudeIsZero(e))
      && (r == Some(NoTimeUnit) <==>
            parses && !StartsWithMinus(e) && !LeadingMagnitudeIsZero(e)
            && !MatchesUnitPattern(e))
      && (r == None <==>
            parses && !StartsWithMinus(e) && !LeadingMagnitudeIsZero(e)
            && MatchesUnitPattern(e))
      && (r.Some? ==> r.value in {NotATimeExpression(e), NegativeInterval, NoNumericInterval, NoTimeUnit})
  {
  }

  /** Trim characters (space, tab, LF, CR, NUL, VT) around the expiry never
      change the verdict; a form feed is not one of them. */
  lemma ExpiryIgnoresPadding(raw: string, p: string, q: string, timeParses: string -> bool)
    requires AllTrimChars(p) && AllTrimChars(q)
    ensures CheckExpiry(p + raw + q, timeParses) == CheckExpiry(raw, timeParses)
  {
    TrimIgnoresPadding(p, raw, q);
  }

  /** Letter case never changes the verdict: two strings that agree once
      lower-cased get the same one. */
  lemma ExpiryIgnoresCase(a: string, b: string, timeParses: string -> bool)
    requires ToLower(a) == ToLower(b)
    ensures CheckExpiry(a, timeParses) == CheckExpiry(b, timeParses)
  {
    TrimToLowerCommute(a);
    TrimToLowerCommute(b);
  }

  /** An expiry that starts with '-' is reported as negative whatever follows,
      once strtotime() accepts it; the sign of any parsed value plays no part. */
  lemma LeadingMinusIsNegative(raw: string, timeParses: string -> bool)
    requires timeParses(NormalizeExpiry(raw))
    requires StartsWithMinus(NormalizeExpiry(raw))
    ensures CheckExpiry(raw, timeParses) == Some(NegativeInterval)
  {
  }

  /** An accepted expiry contains a unit token and a non-zero leading integer.
      That integer is positive unless the string begins with a form feed,
      which trim() keeps, intval() skips, and the '-' test does not see: such
      an expiry, when strtotime() accepts it, is a negative interval that the
      cascade lets through. */
  lemma AcceptedExpiryIsPositive(e: string, parses: bool)
    requires IsTrimmed(e)
    requires ExpiryVerdict(e, parses) == None
    ensures parses
    ensures MatchesUnitPattern(e)
    ensures IntVal(e) != 0
    ensures IntVal(e) > 0 || e[0] == '\U{000C}'
  {
    if IntVal(e) < 0 {
      LeadingMinusAtStart(e);
    }
  }

  /** The cascade with the sign test the negative-interval message intends:
      it asks whether intval() read a minus sign, so leading whitespace that
      trim() keeps cannot hide one. */
  function SignAwareVerdict(e: string, parses: bool): (r: Option<ExpiryError>)
    ensures r == None ==> parses && MatchesUnitPattern(e) && IntVal(e) > 0
  {
    if !parses then Some(NotATimeExpression(e))
    else if LeadingMinus(e) then Some(NegativeInterval)
    else if IntVal(e) == 0 then Some(NoNumericInterval)
    else if !ContainsTimeUnit(e) then Some(NoTimeUnit)
    else None
  }

  /** The two sign tests differ only on a trimmed string that begins with a
      form feed: on every other normalised expiry the cascades agree. */
  lemma SignAwareAgreesWithoutFormFeed(e: string, parses: bool)
    requires IsTrimmed(e)
    requires |e| == 0 || e[0] != '\U{000C}'
    ensures SignAwareVerdict(e, parses) == ExpiryVerdict(e, parses)
  {
    if |e| > 0 {
      assert NumberStart(e, 0) == 0;
    }
  }

  /* --------------------------------------------------------- gemini check */

  /** The Gemini URL check, given the submitted checkbox values. */
  function CheckGemini(rawUrl: string, bundles: PhpArray, probe: string -> ProbeOutcome): (r: Option<GeminiError>)
    ensures r == Some(GeminiUrlRequired) <==>
      IsEmptyString(Trim(rawUrl)) && exists i :: 0 <= i < |bundles| && Truthy(bundles[i].value)
    ensures r.Some? && !r.value.GeminiUrlRequired? ==>
      !IsEmptyString(Trim(rawUrl)) && r.value.url == Trim(rawUrl)
  {
    ArrayFilterNonEmptyIff(bundles);
    var pseudoTypes := ArrayFilter(bundles);
    var url := Trim(rawUrl);
    if !IsEmptyString(url) then
      match probe(url)
      case Reached => None
      case InvalidArgument => Some(CannotParseUrl(url))
      case ConnectFailure => Some(CannotConnectUrl(url))
    else if |pseudoTypes| > 0 then Some(GeminiUrlRequired)
    else None
  }

  /** An empty Gemini URL (after trim(), "" or "0") is an error exactly when a
      bundle is ticked, and the probe is never consulted. */
  lemma GeminiEmptyUrl(rawUrl: string, bundles: PhpArray, probe: string -> ProbeOutcome)
    requires IsEmptyString(Trim(rawUrl))
    ensures (CheckGemini(rawUrl, bundles, probe) == Some(GeminiUrlRequired))
            <==> (exists i :: 0 <= i < |bundles| && Truthy(bundles[i].value))
    ensures (CheckGemini(rawUrl, bundles, probe) == None)
            <==> (forall i :: 0 <= i < |bundles| ==> !Truthy(bundles[i].value))
  {
    ArrayFilterNonEmptyIff(bundles);
  }

  /** With a non-empty Gemini URL the bundle selection is irrelevant: only
      the probe of the trimmed URL decides, and each failure quotes that URL. */
  lemma GeminiNonEmptyUrl(rawUrl: string, bundles: PhpArray, otherBundles: PhpArray, probe: string -> ProbeOutcome)
    requires !IsEmptyString(Trim(rawUrl))
    ensures CheckGemini(rawUrl, bundles, probe) == CheckGemini(rawUrl, otherBundles, probe)
    ensures CheckGemini(rawUrl, bundles, probe) == None <==> probe(Trim(rawUrl)) == Reached
    ensures probe(Trim(rawUrl)) == InvalidArgument ==>
              CheckGemini(rawUrl, bundles, probe) == Some(CannotParseUrl(Trim(rawUrl)))
    ensures probe(Trim(rawUrl)) == ConnectFailure ==>
              CheckGemini(rawUrl, bundles, probe) == Some(CannotConnectUrl(Trim(rawUrl)))
  {
  }

  /* ------------------------------------------------------- validateForm() */

  /** The error list one check contributes to the form state. */
  function Report(f: Field, r: Option<ErrorKind>): (errs: seq<FieldError>)
    ensures |errs| <= 1
    ensures errs == [] <==> r == None
    ensures forall i :: 0 <= i < |errs| ==> errs[i] == FieldError(f, r.value)
  {
    match r
    case None => []
    case Some(k) => [FieldError(f, k)]
  }

  /** What each of the three checks of validateForm() reports on its own. */
  function BrokerOutcome(input: FormInput, oracles: Oracles): (r: Option<ErrorKind>)
    ensures r.Some? ==> r.value.FieldOf() == BrokerUrl
  {
    match CheckBroker(input.brokerUrl, oracles.brokerConnects)
    case None => None
    case Some(e) => Some(OnBroker(e))
  }

  function ExpiryOutcome(input: FormInput, oracles: Oracles): (r: Option<ErrorKind>)
    ensures r.Some? ==> r.value.FieldOf() == JwtExpiry
  {
    match CheckExpiry(input.jwtExpiry, oracles.timeParses)
    case None => None
    case Some(e) => Some(OnExpiry(e))
  }

  function GeminiOutcome(input: FormInput, oracles: Oracles): (r: Option<ErrorKind>)
    ensures r.Some? ==> r.value.FieldOf() == GeminiUrl
  {
    match CheckGemini(input.geminiUrl, input.pseudoBundles, oracles.geminiProbe)
    case None => None
    case Some(e) => Some(OnGemini(e))
  }

  /** Three reports in field order, each consistent with its field, form an
      ordered list with every error attached to the right field. */
  lemma ReportsInFieldOrder(ob: Option<ErrorKind>, ox: Option<ErrorKind>, og: Option<ErrorKind>)
    requires ob.Some? ==> ob.value.FieldOf() == BrokerUrl
    requires ox.Some? ==> ox.value.FieldOf() == JwtExpiry
    requires og.Some? ==> og.value.FieldOf() == GeminiUrl
    ensures var errs := Report(BrokerUrl, ob) + Report(JwtExpiry, ox) + Report(GeminiUrl, og);
      && |errs| <= 3
      && (forall i :: 0 <= i < |errs| ==> errs[i].field == errs[i].kind.FieldOf())
      && (forall i, j :: 0 <= i < j < |errs| ==> errs[i].field.Rank() < errs[j].field.Rank())
  {
    var b, x, g := Report(BrokerUrl, ob), Report(JwtExpiry, ox), Report(GeminiUrl, og);
    var errs := b + x + g;
    forall i | 0 <= i < |errs|
      ensures errs[i].field == errs[i].kind.FieldOf()
      ensures errs[i].field.Rank() == if i < |b| then 0 else if i < |b| + |x| then 1 else 2
    {
      if i < |b| {
        assert errs[i] == b[i];
      } else if i < |b| + |x| {
        assert errs[i] == x[i - |b|];
      } else {
        assert errs[i] == g[i - |b| - |x|];
      }
    }
  }

  /** validateForm(): all three checks run, none cuts another short, and the
      errors come out in field order, at most one per field, each attached to
      the field its message is about. */
  function ValidateForm(input: FormInput, oracles: Oracles): (errs: seq<FieldError>)
    ensures |errs| <= 3
    ensures forall i :: 0 <= i < |errs| ==> errs[i].field == errs[i].kind.FieldOf()
    ensures forall i, j :: 0 <= i < j < |errs| ==> errs[i].field.Rank() < errs[j].field.Rank()
  {
    var ob, ox, og := BrokerOutcome(input, oracles), ExpiryOutcome(input, oracles), GeminiOutcome(input, oracles);
    ReportsInFieldOrder(ob, ox, og);
    Report(BrokerUrl, ob) + Report(JwtExpiry, ox) + Report(GeminiUrl, og)
  }

  /** The errors of a list that are attached to field `f`, in order. */
  function ErrorsOn(errs: seq<FieldError>, f: Field): (ks: seq<ErrorKind>)
    ensures |ks| <= |errs|
    ensures forall k :: k in ks <==> FieldError(f, k) in errs
  {
    if |errs| == 0 then []
    else (if errs[0].field == f then [errs[0].kind] else []) + ErrorsOn(errs[1..], f)
  }

  lemma {:induction false} ErrorsOnAppend(a: seq<FieldError>, b: seq<FieldError>, f: Field)
    ensures ErrorsOn(a + b, f) == ErrorsOn(a, f) + ErrorsOn(b, f)
    decreases |a|
  {
    if |a| == 0 {
      assert a + b == b;
    } else {
      assert (a + b)[1..] == a[1..] + b;
      ErrorsOnAppend(a[1..], b, f);
    }
  }

  lemma ErrorsOnReport(f: Field, o: Option<ErrorKind>, g: Field)
    ensures ErrorsOn(Report(f, o), g) == if f == g then OptionToSeq(o) else []
  {
  }

  /** Picking one field's errors out of three reports gives that field's report. */
  lemma ErrorsOnReports(ob: Option<ErrorKind>, ox: Option<ErrorKind>, og: Option<ErrorKind>, f: Field)
    ensures ErrorsOn(Report(BrokerUrl, ob) + Report(JwtExpiry, ox) + Report(GeminiUrl, og), f)
            == OptionToSeq(match f case BrokerUrl => ob case JwtExpiry => ox case GeminiUrl => og)
  {
    var b, x, g := Report(BrokerUrl, ob), Report(JwtExpiry, ox), Report(GeminiUrl, og);
    ErrorsOnAppend(b, x, f);
    ErrorsOnAppend(b + x, g, f);
    var eb, ex, eg := ErrorsOn(b, f), ErrorsOn(x, f), ErrorsOn(g, f);
    assert ErrorsOn(b + x + g, f) == eb + ex + eg;
    ErrorsOnReport(BrokerUrl, ob, f);
    ErrorsOnReport(JwtExpiry, ox, f);
    ErrorsOnReport(GeminiUrl, og, f);
    match f
    case BrokerUrl => assert ex == eg == [];
    case JwtExpiry => assert eb == eg == [];
    case GeminiUrl => assert eb == ex == [];
  }

  /** The errors on each field are exactly that field's own check result. */
  lemma ErrorsOnEachField(input: FormInput, oracles: Oracles)
    ensures var errs := ValidateForm(input, oracles);
      && ErrorsOn(errs, BrokerUrl) == OptionToSeq(BrokerOutcome(input, oracles))
      && ErrorsOn(errs, JwtExpiry) == OptionToSeq(ExpiryOutcome(input, oracles))
      && ErrorsOn(errs, GeminiUrl) == OptionToSeq(GeminiOutcome(input, oracles))
  {
    var ob, ox, og := BrokerOutcome(input, oracles), ExpiryOutcome(input, oracles), GeminiOutcome(input, oracles);
    ErrorsOnReports(ob, ox, og, BrokerUrl);
    ErrorsOnReports(ob, ox, og, JwtExpiry);
    ErrorsOnReports(ob, ox, og, GeminiUrl);
  }

  function OptionToSeq<T>(o: Option<T>): (s: seq<T>)
    ensures |s| <= 1
    ensures o.Some? <==> |s| == 1
    ensures o.Some? ==> s[0] == o.value
  {
    match o
    case None => []
    case Some(v) => [v]
  }

  /** Cross-field independence: each field's errors depend only on that
      field's own inputs and on what its own oracle says about them. */
  lemma BrokerErrorsIndependent(a: FormInput, oa: Oracles, b: FormInput, ob: Oracles)
    requires a.brokerUrl == b.brokerUrl
    requires oa.brokerConnects(a.brokerUrl) == ob.brokerConnects(b.brokerUrl)
    ensures ErrorsOn(ValidateForm(a, oa), BrokerUrl) == ErrorsOn(ValidateForm(b, ob), BrokerUrl)
  {
    ErrorsOnEachField(a, oa);
    ErrorsOnEachField(b, ob);
    assert CheckBroker(a.brokerUrl, oa.brokerConnects) == CheckBroker(b.brokerUrl, ob.brokerConnects);
  }

  lemma ExpiryErrorsIndependent(a: FormInput, oa: Oracles, b: FormInput, ob: Oracles)
    requires a.jwtExpiry == b.jwtExpiry
    requires oa.timeParses(NormalizeExpiry(a.jwtExpiry)) == ob.timeParses(NormalizeExpiry(b.jwtExpiry))
    ensures ErrorsOn(ValidateForm(a, oa), JwtExpiry) == ErrorsOn(ValidateForm(b, ob), JwtExpiry)
  {
    ErrorsOnEachField(a, oa);
    ErrorsOnEachField(b, ob);
    assert CheckExpiry(a.jwtExpiry, oa.timeParses) == CheckExpiry(b.jwtExpiry, ob.timeParses);
  }

  lemma GeminiErrorsIndependent(a: FormInput, oa: Oracles, b: FormInput, ob: Oracles)
    requires a.geminiUrl == b.geminiUrl && a.pseudoBundles == b.pseudoBundles
    requires oa.geminiProbe(Trim(a.geminiUrl)) == ob.geminiProbe(Trim(b.geminiUrl))
    ensures ErrorsOn(ValidateForm(a, oa), GeminiUrl) == ErrorsOn(ValidateForm(b, ob), GeminiUrl)
  {
    ErrorsOnEachField(a, oa);
    ErrorsOnEachField(b, ob);
    assert CheckGemini(a.geminiUrl, a.pseudoBundles, oa.geminiProbe)
        == CheckGemini(b.geminiUrl, b.pseudoBundles, ob.geminiProbe);
  }

  /** A field carries at most one error, so at most one jwt_expiry message
      reaches the operator. */
  lemma AtMostOneErrorPerField(input: FormInput, oracles: Oracles, f: Field)
    ensures |ErrorsOn(ValidateForm(input, oracles), f)| <= 1
  {
    ErrorsOnEachField(input, oracles);
  }

  /** The form is accepted exactly when the broker answers, the expiry passes
      the whole cascade, and the Gemini rule holds. */
  lemma ValidateFormAcceptsIff(input: FormInput, oracles: Oracles)
    ensures ValidateForm(input, oracles) == [] <==>
      && oracles.brokerConnects(input.brokerUrl)
      && CheckExpiry(input.jwtExpiry, oracles.timeParses) == None
      && (if IsEmptyString(Trim(input.geminiUrl))
          then forall i :: 0 <= i < |input.pseudoBundles| ==> !Truthy(input.pseudoBundles[i].value)
          else oracles.geminiProbe(Trim(input.geminiUrl)) == Reached)
  {
    if IsEmptyString(Trim(input.geminiUrl)) {
      GeminiEmptyUrl(input.geminiUrl, input.pseudoBundles, oracles.geminiProbe);
    } else {
      GeminiNonEmptyUrl(input.geminiUrl, input.pseudoBundles, input.pseudoBundles, oracles.geminiProbe);
    }
  }

  /* --------------------------------------------------------- submitForm() */

  /** submitForm(): the three text values are stored as submitted (untrimmed,
      unlowered), and the bundle selection is stored with its unticked
      entries removed and nothing else changed. */
  function SubmitForm(input: FormInput): (saved: SavedSettings)
    ensures saved.brokerUrl == input.brokerUrl
    ensures saved.jwtExpiry == input.jwtExpiry
    ensures saved.geminiUrl == input.geminiUrl
    ensures forall e :: e in saved.pseudoBundles <==> e in input.pseudoBundles && Truthy(e.value)
  {
    SavedSettings(input.brokerUrl, input.jwtExpiry, input.geminiUrl, ArrayFilter(input.pseudoBundles))
  }

  /** The selection submitForm stores is exactly the one validateForm counted:
      a stored selection that is non-empty implies the Gemini rule saw it. */
  lemma SavedBundlesNeedGeminiUrl(input: FormInput, oracles: Oracles)
    requires ValidateForm(input, oracles) == []
    requires |SubmitForm(input).pseudoBundles| > 0
    ensures !IsEmptyString(Trim(SubmitForm(input).geminiUrl))
  {
    ErrorsOnEachField(input, oracles);
  }
}
