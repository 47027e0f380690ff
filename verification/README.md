# Islandora settings form — validation model

This project models the validation and save logic of Islandora's
configuration form, `IslandoraSettingsForm`:

- `validateForm()` checks three fields independently:
  - the ActiveMQ broker URL, by a STOMP subscribe/unsubscribe round trip;
  - the JWT expiry expression, through a four-step cascade:
    1. `strtotime()` must accept it;
    2. it must not begin with `-`;
    3. `intval()` must not be 0;
    4. it must contain one of the units `sec`, `second`, `min`, `minute`,
       `hour`, `week`, `month` or `year`, optionally plural, as a word of its
       own.
  - the Gemini URL, which is probed when it is non-empty and required when
    any pseudo-field bundle is ticked.
- `submitForm()` stores the three text values as submitted. It stores the
  bundle selection with the unticked checkboxes filtered out.

The model has five modules:

- `PhpStrings`: PHP's `trim()`, `strtolower()`, `intval()` on strings, and
  `empty()` on strings.
- `PhpArrays`: PHP truthiness and `array_filter()` without a callback, over
  an ordered key/value array.
- `TimeUnitPattern`: the regular expression
  `\b(sec|second|min|minute|hour|week|month|year)s?\b`. It is given two ways:
  - as a declarative match (some position, alternative and plural choice
    matches with a word boundary on each side);
  - as an executable left-to-right scanner, proved equal to the declarative
    match.
- `SettingsForm`: the three checks, `ValidateForm` as the ordered list of
  `(field, error)` pairs that `setErrorByName()` receives, `SubmitForm`, and
  their properties.
- `SettingsFormExamples`: lemmas about concrete inputs. They cover the edge
  cases of the cascade, the Gemini rule and one whole-form call.

The foreign calls are function parameters (`Oracles`), and each sees exactly
the value the form hands to it:

- `brokerConnects` gets the raw broker URL and says whether the STOMP round
  trip succeeds.
- `timeParses` gets the trimmed, lower-cased expiry and says whether
  `strtotime()` returns a timestamp.
- `geminiProbe` gets the trimmed Gemini URL and gives the outcome of
  `Url::fromUri`, `GeminiClient::create` and `findByUri`:
  - `Reached`, when they complete;
  - `InvalidArgument`, when an `InvalidArgumentException` is thrown;
  - `ConnectFailure`, when a `ConnectException` is thrown.

One consequence of PHP's character classes shows up in the model:

- `trim()` does not strip a form feed.
- `intval()` skips a form feed before the sign.
- A trimmed expiry that starts with a form feed followed by `-` therefore
  passes the `-` check with a negative `intval()`.
- `AcceptedExpiryIsPositive` states this exception exactly, and
  `FormFeedHidesTheSign` exhibits it whenever `strtotime()` accepts the string.
- The field description (line 102 of the form) promises a positive
  interval, so this is listed under "## Findings". `ValidateForm` keeps the
  behaviour as written, and `SignAwareVerdict` is the cascade with the
  intended sign test.

The same description gives "2 days" as an example expiry. The unit
vocabulary has no "day", so the validator refuses it; `DaysIsNotAUnit` states
this. The code is followed here.

## Model

| member | source | states |
|---|---|---|
| `PhpStrings.Trim` | src/Form/IslandoraSettingsForm.php:180 | trim() gives a trimmed infix of its input, and everything it cuts away on either side is a trim character (space, tab, LF, CR, NUL, VT) |
| `PhpStrings.TrimOfPadded` | src/Form/IslandoraSettingsForm.php:218 | a trimmed core surrounded by trim characters trims to exactly that core, which determines trim() uniquely |
| `PhpStrings.TrimIgnoresPadding` | src/Form/IslandoraSettingsForm.php:180 | adding trim characters on either side never changes what trim() returns |
| `PhpStrings.TrimIdempotent` | src/Form/IslandoraSettingsForm.php:218 | trimming a second time changes nothing |
| `PhpStrings.ToLower` | src/Form/IslandoraSettingsForm.php:181 | strtolower() keeps the length and maps each character on its own: ASCII capitals to small letters, everything else unchanged |
| `PhpStrings.ToLowerIdempotent` | src/Form/IslandoraSettingsForm.php:181 | a lower-cased string has no capitals left, and lower-casing it again changes nothing |
| `PhpStrings.TrimToLowerCommute` | src/Form/IslandoraSettingsForm.php:180-181 | trimming then lower-casing is the same as lower-casing then trimming |
| `PhpStrings.LowerCaseKeepsPadding` | src/Form/IslandoraSettingsForm.php:180-181 | lower-casing leaves the padding trim() cuts away as it was and lower-cases the trimmed core in place, so the lower-cased trim() result sits in the lower-cased input between trim characters |
| `PhpStrings.LeadingDigitsOfUnsigned` | src/Form/IslandoraSettingsForm.php:197 | for a string that starts with a digit or a non-space, non-sign character, the digits intval() reads are its maximal digit prefix |
| `PhpStrings.DigitsValueZeroIff` | src/Form/IslandoraSettingsForm.php:197 | a digit string has value 0 exactly when all its digits are '0' |
| `PhpStrings.IntVal` | src/Form/IslandoraSettingsForm.php:197 | intval() is 0 exactly when its leading digits are all zeros or absent; it is negative exactly when it is non-zero and intval() read a minus sign, and positive exactly when it is non-zero with no minus |
| `PhpStrings.LeadingMinusAtStart` | src/Form/IslandoraSettingsForm.php:191-197 | the minus intval() honours is the first character or comes after leading whitespace |
| `PhpArrays.ArrayFilter` | src/Form/IslandoraSettingsForm.php:215 | array_filter() keeps an entry (key and value) exactly when it was in the array with a truthy value, and never grows the array |
| `PhpArrays.ArrayFilterAppend` | src/Form/IslandoraSettingsForm.php:260 | filtering works piece by piece, so the kept entries stay in their original order |
| `PhpArrays.ArrayFilterKeepsTruthy` | src/Form/IslandoraSettingsForm.php:260 | an array whose values are all truthy is kept whole |
| `PhpArrays.ArrayFilterIdempotent` | src/Form/IslandoraSettingsForm.php:260 | filtering a filtered selection changes nothing |
| `PhpArrays.ArrayFilterNonEmptyIff` | src/Form/IslandoraSettingsForm.php:215-246 | count(array_filter($a)) > 0 exactly when some value of $a is truthy |
| `TimeUnitPattern.SomeTokenAt` | src/Form/IslandoraSettingsForm.php:29-38 | some alternative of the token list, singular or plural, matches at a position exactly when the declarative match at that position holds for one of them |
| `TimeUnitPattern.ScanFrom` | src/Form/IslandoraSettingsForm.php:204 | the left-to-right scan finds a match at or after a position exactly when the regular expression matches there |
| `TimeUnitPattern.ContainsTimeUnit` | src/Form/IslandoraSettingsForm.php:204 | the executable unit check agrees with the regular-expression semantics on every string |
| `TimeUnitPattern.UnitStartsAWord` | src/Form/IslandoraSettingsForm.php:29-38 | a string in which every possible token start sits inside a word has no unit match |
| `PhpStrings.IsEmptyString` | src/Form/IslandoraSettingsForm.php:219 | empty() on a string holds exactly for strings of at most one character, all of them '0', that is "" and "0" |
| `PhpArrays.Truthy` | src/Form/IslandoraSettingsForm.php:215 | a value is falsy exactly when it is 0, "", "0", false or null |
| `SettingsForm.StartsWithMinus` | src/Form/IslandoraSettingsForm.php:191 | the sign test is substr($expiry, 0, 1) == "-": the first character, at most, compared with "-" |
| `SettingsForm.ExpiryVerdict` | src/Form/IslandoraSettingsForm.php:182-212 | the cascade quotes the expiry exactly when strtotime() refuses it, and accepts exactly when it parses, has no leading '-', has a leading integer with a non-zero digit, and matches the unit pattern |
| `SettingsForm.CheckExpiry` | src/Form/IslandoraSettingsForm.php:179-212 | the jwt_expiry check runs the cascade on the trimmed, lower-cased expiry: "not a time expression" exactly when strtotime() refuses that string, and acceptance under the same conditions as the cascade |
| `SettingsForm.SignAwareVerdict` | src/Form/IslandoraSettingsForm.php:191-196 | the cascade with a sign test on the minus intval() reads accepts only expiries that parse, match the unit pattern and have a positive intval() |
| `SettingsForm.SignAwareAgreesWithoutFormFeed` | src/Form/IslandoraSettingsForm.php:191 | on a trimmed expiry not starting with a form feed, the sign-aware cascade gives the same verdict as the one written |
| `SettingsForm.CheckGemini` | src/Form/IslandoraSettingsForm.php:214-251 | "URL required" is raised exactly when the trimmed URL is empty in PHP's sense and some bundle is ticked; the other two errors arise only for a non-empty URL and quote the trimmed URL |
| `SettingsForm.CheckBroker` | src/Form/IslandoraSettingsForm.php:155-177 | the broker URL is in error exactly when the STOMP round trip fails, and the message quotes the URL as submitted |
| `SettingsForm.NormalizeExpiry` | src/Form/IslandoraSettingsForm.php:180-181 | the expiry every check looks at is trimmed and has no capitals |
| `SettingsForm.NormalizeStripsOnlyPadding` | src/Form/IslandoraSettingsForm.php:180-181 | normalising removes nothing but padding: the lower-cased input is the normalised expiry with only trim characters (space, tab, LF, CR, NUL, VT) on either side |
| `SettingsForm.NormalizeFixed` | src/Form/IslandoraSettingsForm.php:180-181 | a trimmed expiry without capitals is its own normal form |
| `SettingsForm.ExpiryCascade` | src/Form/IslandoraSettingsForm.php:182-212 | each of the four expiry errors, and acceptance, is given exactly when every earlier check passed and this one failed; the zero check is stated by the digits intval() reads and the unit check by the regular-expression semantics |
| `SettingsForm.ExpiryIgnoresPadding` | src/Form/IslandoraSettingsForm.php:180 | trim characters (space, tab, LF, CR, NUL, VT) around the expiry never change its verdict; a form feed is not one of them and can |
| `SettingsForm.ExpiryIgnoresCase` | src/Form/IslandoraSettingsForm.php:181 | two expiries that agree once lower-cased get the same verdict |
| `SettingsForm.LeadingMinusIsNegative` | src/Form/IslandoraSettingsForm.php:191-196 | a parseable expiry that starts with '-' is reported as negative, whatever follows |
| `SettingsForm.AcceptedExpiryIsPositive` | src/Form/IslandoraSettingsForm.php:179-212 | an accepted expiry was parsed, contains a unit and has a non-zero intval(); that value is positive unless the string starts with a form feed |
| `SettingsForm.GeminiEmptyUrl` | src/Form/IslandoraSettingsForm.php:214-219 | with an empty Gemini URL ("" or "0" after trim()), the error "URL required" is raised exactly when some bundle is ticked, and nothing is raised otherwise |
| `SettingsForm.GeminiNonEmptyUrl` | src/Form/IslandoraSettingsForm.php:218-245 | with a non-empty Gemini URL, the bundles play no part: the URL passes exactly when the probe of the trimmed URL succeeds, and each failure quotes the trimmed URL |
| `SettingsForm.ValidateForm` | src/Form/IslandoraSettingsForm.php:154-252 | validateForm() reports at most three errors, each attached to the field its message is about, in field order with at most one per field |
| `SettingsForm.ErrorsOnEachField` | src/Form/IslandoraSettingsForm.php:154-252 | the errors on each field are exactly what that field's own check reports |
| `SettingsForm.BrokerErrorsIndependent` | src/Form/IslandoraSettingsForm.php:155-177 | the broker_url errors depend only on the broker URL and the broker's answer |
| `SettingsForm.ExpiryErrorsIndependent` | src/Form/IslandoraSettingsForm.php:179-212 | the jwt_expiry errors depend only on the expiry and strtotime()'s answer for it |
| `SettingsForm.GeminiErrorsIndependent` | src/Form/IslandoraSettingsForm.php:214-251 | the gemini_url errors depend only on the Gemini URL, the bundle selection and the probe's answer |
| `SettingsForm.AtMostOneErrorPerField` | src/Form/IslandoraSettingsForm.php:154-252 | no field, the expiry included, receives more than one error |
| `SettingsForm.ValidateFormAcceptsIff` | src/Form/IslandoraSettingsForm.php:154-252 | the form validates exactly when the broker answers, the expiry passes the whole cascade, and either the Gemini URL is non-empty and reachable or it is empty with no bundle ticked |
| `SettingsForm.SubmitForm` | src/Form/IslandoraSettingsForm.php:257-267 | submitForm() stores the broker URL, expiry and Gemini URL exactly as submitted, and stores exactly the ticked bundle entries |
| `SettingsForm.SavedBundlesNeedGeminiUrl` | src/Form/IslandoraSettingsForm.php:215-266 | a form that validated and stores a non-empty bundle selection has a non-empty Gemini URL |
| `SettingsFormExamples.MinusZeroFooIsNegative` | src/Form/IslandoraSettingsForm.php:191 | "-0 foo" is reported as negative, because only the first character is looked at |
| `SettingsFormExamples.TomorrowHasNoNumber` | src/Form/IslandoraSettingsForm.php:197 | "tomorrow" has intval() 0 and is reported as having no numeric interval |
| `SettingsFormExamples.HalfHourIsZero` | src/Form/IslandoraSettingsForm.php:197 | "0.5 hours" has intval() 0 and is reported as having no numeric interval |
| `SettingsFormExamples.DaysIsNotAUnit` | src/Form/IslandoraSettingsForm.php:29-38 | "2 days" is refused for lack of a unit: "day" is not in the vocabulary |
| `SettingsFormExamples.FortnightsIsNotAUnit` | src/Form/IslandoraSettingsForm.php:29-38 | "5 fortnights" is refused for lack of a unit |
| `SettingsFormExamples.GluedUnitIsNotFound` | src/Form/IslandoraSettingsForm.php:204 | "10hours" is refused for lack of a unit: there is no word boundary before "hours" |
| `SettingsFormExamples.MinutesAccepted` | src/Form/IslandoraSettingsForm.php:204 | "3 minutes" passes the whole cascade |
| `SettingsFormExamples.HoursAccepted` | src/Form/IslandoraSettingsForm.php:204 | "10 hours" passes the whole cascade |
| `SettingsFormExamples.PaddedCapitalsAccepted` | src/Form/IslandoraSettingsForm.php:180-181 | "  10 HOURS " passes, since it is trimmed and lower-cased first |
| `SettingsFormExamples.FormFeedHidesTheSign` | src/Form/IslandoraSettingsForm.php:180-197 | a form feed before "-5 hours" survives trim() and hides the minus from the first-character check, so under a parser that accepts it the expiry passes with a negative intval() |
| `SettingsFormExamples.FormFeedCaughtBySignAware` | src/Form/IslandoraSettingsForm.php:191-196 | the sign-aware cascade reports the form-feed expiry as negative |
| `SettingsFormExamples.ZeroUrlWithTickedBundle` | src/Form/IslandoraSettingsForm.php:218-251 | a Gemini URL " 0 " counts as empty, so a ticked bundle draws "URL required" |
| `SettingsFormExamples.EmptyUrlWithUntickedBundles` | src/Form/IslandoraSettingsForm.php:215-251 | an empty Gemini URL with only unticked (value 0) bundles is accepted |
| `SettingsFormExamples.EveryFieldFails` | src/Form/IslandoraSettingsForm.php:154-252 | a dead broker, "-1 day" and a ticked bundle with no Gemini URL give exactly three errors, one per field, in field order |

## Left out

- The STOMP client is not modelled. The broker check is an oracle on the raw URL. Exceptions other than `StompException` are not modelled, since they would abort validation.
- `strtotime()` is an oracle on the normalised expiry. Its grammar and its dependence on the clock are not modelled.
- `Url::fromUri`, `GeminiClient` and `findByUri` are one three-outcome oracle on the trimmed URL. Other exception types would escape `validateForm()` and are not modelled.
- PhpStrings.IntVal: the whitespace skip, the sign, the digits read and the zero test are exact. Two things are left out:
  - overflow. A digit run beyond `PHP_INT_MAX` is read as a float and capped, which keeps the sign. A run too long even for a float becomes infinity, and intval() turns infinity into 0. For example, "1" followed by 310 zeros and then " hours": PHP reports no numeric interval, while the model reads a positive value and accepts the expiry if strtotime() does. So the zero check can differ on such input;
  - the fractional and exponent notation (`"1e3"`) that PHP 7.1 and later read in numeric strings. On such strings the zero check can give the opposite verdict: `"1e-5 hours"` has intval() 0 in PHP but the model reads 1 and accepts it, and `"0.5e1 hours"` has intval() 5 in PHP but the model reads 0 and reports no numeric interval.
- `strtolower()` and `trim()` act on ASCII only. Locale-dependent case mapping is not modelled.
- `buildForm()`, the constructor, dependency injection, `t()` message rendering, `Settings`, bundle enumeration and the configuration `save()` are left out. They carry no decision logic of the validation.
- Drupal's rule that a second `setErrorByName()` on the same field is ignored is not modelled. Each check raises at most one error per field, so it never applies here.

## Findings

| source | as written | input that shows it | evidently intended | confidence | as-written member | corrected member |
|---|---|---|---|---|---|---|
| src/Form/IslandoraSettingsForm.php:191 | the negative check looks at the first character only, but trim() keeps a leading form feed and intval() skips it | `"\f-5 hours"`, when strtotime() accepts it, passes every check with intval() −5 | a negative interval is refused, as the message on line 194 and the field description's "positive time interval expression" on line 102 say | medium, not executed; depends on strtotime() accepting the leading form feed | `SettingsFormExamples.FormFeedHidesTheSign` | `SettingsForm.SignAwareVerdict` |
