/** Lemmas about concrete inputs: the edge cases of the expiry cascade, of
    the Gemini rule, and one full validateForm() call. */
module SettingsFormExamples {
  import opened PhpStrings
  import opened PhpArrays
  import opened TimeUnitPattern
  import opened SettingsForm

  /** A strtotime() that accepts every string, so that the later checks of
      the cascade are reached. */
  function AcceptAll(e: string): bool {
    true
  }

  /** "-0 foo" is reported as negative: the first character decides, before
      the zero and unit checks are reached. */
  lemma MinusZeroFooIsNegative()
    ensures CheckExpiry("-0 foo", AcceptAll) == Some(NegativeInterval)
  {
    NormalizeFixed("-0 foo");
  }

  /** Strings without leading digits, and "0.5 hours", read as intval() 0. */
  lemma TomorrowHasNoNumber()
    ensures CheckExpiry("tomorrow", AcceptAll) == Some(NoNumericInterval)
  {
    NormalizeFixed("tomorrow");
    LeadingDigitsOfUnsigned("tomorrow", 0);
  }

  lemma HalfHourIsZero()
    ensures CheckExpiry("0.5 hours", AcceptAll) == Some(NoNumericInterval)
  {
    NormalizeFixed("0.5 hours");
    LeadingDigitsOfUnsigned("0.5 hours", 1);
  }

  /** "day" is not in the unit vocabulary. */
  lemma DaysIsNotAUnit()
    ensures CheckExpiry("2 days", AcceptAll) == Some(NoTimeUnit)
  {
    NormalizeFixed("2 days");
    LeadingDigitsOfUnsigned("2 days", 1);
    UnitStartsAWord("2 days");
  }

  /** "10hours" has no word boundary between the number and the unit. */
  lemma GluedUnitIsNotFound()
    ensures CheckExpiry("10hours", AcceptAll) == Some(NoTimeUnit)
  {
    NormalizeFixed("10hours");
    LeadingDigitsOfUnsigned("10hours", 2);
    UnitStartsAWord("10hours");
  }

  /** The unit check finds a token when it is a word of its own. */
  lemma MinutesHasAUnit()
    ensures ContainsTimeUnit("3 minutes")
  {
    assert UnitAt("3 minutes", 2, TimeIntervals[3], true);
  }

  lemma MinutesAccepted()
    ensures CheckExpiry("3 minutes", AcceptAll) == None
  {
    NormalizeFixed("3 minutes");
    LeadingDigitsOfUnsigned("3 minutes", 1);
    MinutesHasAUnit();
  }

  lemma HoursHasAUnit()
    ensures ContainsTimeUnit("10 hours")
  {
    assert UnitAt("10 hours", 3, TimeIntervals[4], true);
  }

  lemma HoursAccepted()
    ensures CheckExpiry("10 hours", AcceptAll) == None
  {
    NormalizeFixed("10 hours");
    LeadingDigitsOfUnsigned("10 hours", 2);
    HoursHasAUnit();
  }

  /** Lower-casing "10 HOURS" gives "10 hours". */
  lemma LowerHours()
    ensures ToLower("10 HOURS") == ToLower("10 hours")
  {
    var a, b := ToLower("10 HOURS"), ToLower("10 hours");
    assert |a| == |b| == 8;
    forall k | 0 <= k < 8 ensures a[k] == b[k] {
      assert a[k] == LowerChar("10 HOURS"[k]);
      assert b[k] == LowerChar("10 hours"[k]);
    }
  }

  /** Surrounding blanks and capitals are normalised away first. */
  lemma PaddedCapitalsAccepted()
    ensures CheckExpiry("  10 HOURS ", AcceptAll) == None
  {
    assert "  10 HOURS " == "  " + "10 HOURS" + " ";
    ExpiryIgnoresPadding("10 HOURS", "  ", " ", AcceptAll);
    LowerHours();
    ExpiryIgnoresCase("10 HOURS", "10 hours", AcceptAll);
    HoursAccepted();
  }

  /** "fortnight" is a unit strtotime() knows but the pattern does not list. */
  lemma FortnightsIsNotAUnit()
    ensures CheckExpiry("5 fortnights", AcceptAll) == Some(NoTimeUnit)
  {
    NormalizeFixed("5 fortnights");
    LeadingDigitsOfUnsigned("5 fortnights", 1);
    UnitStartsAWord("5 fortnights");
  }

  /** intval() skips the form feed and reads the sign and digits after it. */
  lemma FormFeedNumber()
    ensures LeadingMinus("\U{000C}-5 hours")
    ensures LeadingDigits("\U{000C}-5 hours") == "5"
  {
    var e := "\U{000C}-5 hours";
    assert NumberStart(e, 1) == 1;
    assert NumberStart(e, 0) == 1;
    assert DigitsEnd(e, 3) == 3;
    assert DigitsEnd(e, 2) == 3;
  }

  lemma FormFeedHasAUnit()
    ensures ContainsTimeUnit("\U{000C}-5 hours")
  {
    assert UnitAt("\U{000C}-5 hours", 4, TimeIntervals[4], true);
  }

  /** A form feed survives trim() and hides a '-' from the sign check, while
      intval() skips it: the expiry is accepted with a negative leading integer. */
  lemma FormFeedHidesTheSign()
    ensures CheckExpiry("\U{000C}-5 hours", AcceptAll) == None
    ensures IntVal("\U{000C}-5 hours") < 0
  {
    NormalizeFixed("\U{000C}-5 hours");
    FormFeedNumber();
    FormFeedHasAUnit();
  }

  /** The sign-aware cascade reports the same expiry as negative. */
  lemma FormFeedCaughtBySignAware()
    ensures SignAwareVerdict("\U{000C}-5 hours", true) == Some(NegativeInterval)
  {
    FormFeedNumber();
  }

  function NeverProbed(url: string): ProbeOutcome {
    ConnectFailure
  }

  /** An unticked checkbox carries the integer 0. */
  const Unticked: PhpArray := [Entry("islandora_object", Int(0))]
  const Ticked: PhpArray := [Entry("islandora_object", Str("islandora_object"))]

  /** " 0 " trims to "0", which empty() counts as no URL at all. */
  lemma ZeroUrlWithTickedBundle()
    ensures CheckGemini(" 0 ", Ticked, NeverProbed) == Some(GeminiUrlRequired)
  {
    assert " 0 " == " " + "0" + " ";
    TrimOfPadded(" ", "0", " ");
  }

  lemma EmptyUrlWithUntickedBundles()
    ensures CheckGemini("", Unticked, NeverProbed) == None
  {
    assert [] + "" + [] == "";
    TrimOfPadded([], "", []);
  }

  function Refuse(url: string): bool {
    false
  }

  /** Every field fails at once: the broker is down, "-1 day" is negative and
      a bundle is ticked without a Gemini URL. All three errors are reported,
      in field order. */
  lemma EveryFieldFails()
    ensures ValidateForm(FormInput("tcp://broker:61613", "-1 day", "", Ticked),
                         Oracles(Refuse, AcceptAll, NeverProbed))
            == [FieldError(BrokerUrl, OnBroker(BrokerUnreachable("tcp://broker:61613"))),
                FieldError(JwtExpiry, OnExpiry(NegativeInterval)),
                FieldError(GeminiUrl, OnGemini(GeminiUrlRequired))]
  {
    NormalizeFixed("-1 day");
    assert [] + "" + [] == "";
    TrimOfPadded([], "", []);
  }
}
