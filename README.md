# VolumeProfile in Dafny

A model of the volume profile of the benchmark engine (package
`com.benchmark`). A volume profile splits a trading day into buckets. Each
bucket has a start and an end time, a share of the day's volume and a session
category (`POS`, `CTS`, `L`, `CAS`). The model covers these parts:

- **Loading.** One CSV line becomes a bucket (`parseAndAddEntry`). A file of
  lines is read, with its header, stopping at the first bad line, and then
  validated (the in-memory part of `loadFromCSV`).
- **Validation.** The checks a loaded profile must pass: the total share,
  continuity, and the fixed length of each session.
- **TWAP fallback.** The flat profile appended when no file can be used.
- **Queries.** The cumulative share of a time range; the normalised target,
  which is the fraction of a period's volume elapsed at a time; and the
  lookup of a bucket by its start time.

The modules are laid out as follows:

| file | module | models |
|---|---|---|
| `entries.dfy` | `Entries` | the `Entry` record, time of day, the exceptions as error values |
| `bucket_type.dfy` | `BucketTypes` | `BucketType.java` |
| `text.dfy` | `Text` | the JDK parsing the source relies on: `HH:mm` times, `String.split`, `String.trim`, plain decimals |
| `rows.dfy` | `Rows` | the pure part of `parseAndAddEntry` and of the read loop |
| `validation.dfy` | `Validation` | `Validation.java` |
| `cumulative.dfy` | `Cumulative` | the specification functions of `getCumulativePercentage` and `getNormalizedTargetPercent` |
| `twap.dfy` | `Twap` | the layout `generateTwapProfile` appends |
| `volume_profile.dfy` | `VolumeProfiles` | the class `VolumeProfile`, with its three fields and its methods |

The model represents the source's types as follows:

- **Time.** A `LocalTime` is a whole number of seconds since midnight, from 0 to 86399.
- **Shares.** A share is a `real`.
- **Exceptions.** An exception is an `Error(kind, reason)`. `kind` names the
  Java exception class. `reason` carries the values its message quotes.
- **Results.** Operations that throw return a `Result` or `Outcome` instead.
- **The class.** `VolumeProfile` is a Dafny class. Its fields are:
  - `entryList`, a `seq<Entry>`;
  - `entryMap`, a `map<Time, Entry>`;
  - `totalPercentage`, a `real`.
- **Class invariant.** `Valid()` says that the map is always the index of the
  list: one key per start time, and the last bucket added with a given start
  wins.

The loops of `generateTwapProfile`, `getCumulativePercentage`, the read loop
and `validateEntries` are `while`/`for` loops. Each is proved against a
specification function whose properties are proved as lemmas.

Two behaviours of the code are worth knowing:

- **Worked example.** Take three one-minute CTS buckets from 09:30 with
  shares 0.4, 0.3 and 0.3. The normalised target at 09:31:30 in
  [09:30, 09:33] is 0.55: the first bucket counts whole, half of the second
  bucket counts, and the third bucket starts after 09:31:30, so the loop
  skips it (`Cumulative.WorkedExample`).
- **Target at the period start.** The period volume is computed first. When
  it is non-zero and `time` is the period start, the elapsed volume is
  requested over the range [s, s]. That range is rejected with an
  `IllegalArgumentException`, so the call fails rather than answering 0
  (`Cumulative.NormalizedTargetErrors`).

## Model

| member | source | states |
|---|---|---|
| BucketTypes.DisplayName | src/main/java/com/benchmark/BucketType.java:21-23 | toString answers each constant's descriptive label: "pre open session", "continuous trading session", "lunch break", "close auction session" |
| BucketTypes.ValueOf | src/main/java/com/benchmark/BucketType.java:14 | Enum.valueOf finds the constant whose identifier equals the string exactly, and finds none when no identifier does |
| BucketTypes.IsBucketType | src/main/java/com/benchmark/BucketType.java:12-19 | true exactly when some constant's identifier equals the string |
| BucketTypes.ValueOfName | src/main/java/com/benchmark/BucketType.java:4 | every constant is found by its own identifier |
| BucketTypes.RecognisedNames | src/main/java/com/benchmark/BucketType.java:12-19 | POS, CTS, L and CAS are accepted; lower case, padded, empty and unknown strings are rejected |
| Entries.TotalPercentage | src/main/java/com/benchmark/VolumeProfile.java:184 | the running total of the shares, added in list order; TotalPercentageAppend and TotalPercentageNonNegative state its properties |
| Entries.TotalPercentageAppend | src/main/java/com/benchmark/VolumeProfile.java:184 | the running total over two lists appended is the sum of their totals |
| Entries.TotalPercentageNonNegative | src/main/java/com/benchmark/VolumeProfile.java:163-165 | with no negative share, the running total is not negative |
| Text.SplitAll | src/main/java/com/benchmark/VolumeProfile.java:132 | splitting yields at least one field and no field holds the separator |
| Text.JoinSplitAll | src/main/java/com/benchmark/VolumeProfile.java:132 | joining the fields back with the separator gives the line again |
| Text.DropTrailingEmpty | src/main/java/com/benchmark/VolumeProfile.java:132 | String.split drops trailing empty fields: the result is a prefix that does not end in an empty field, and every field dropped is empty |
| Text.Split | src/main/java/com/benchmark/VolumeProfile.java:132 | String.split: a line without the separator is its only field; otherwise the full split cut after its last non-empty field, every field dropped being empty; no field holds the separator |
| Text.SplitFourFields | src/main/java/com/benchmark/VolumeProfile.java:132 | four comma-free fields joined by commas, the last non-empty, split back into exactly those four fields |
| Text.Trim | src/main/java/com/benchmark/VolumeProfile.java:171 | trim leaves no character at or below U+0020 at either end (Text.TrimDropsBlanks says what it removes) |
| Text.TrimDropsBlanks | src/main/java/com/benchmark/VolumeProfile.java:171 | for every text, trim keeps a middle part whose prefix and suffix in the text are all characters at or below U+0020 |
| Text.TrimUnchanged | src/main/java/com/benchmark/VolumeProfile.java:171 | a string with no blank at either end is its own trim |
| Text.TrimPadded | src/main/java/com/benchmark/VolumeProfile.java:171 | any padding of characters at or below U+0020 around text without such ends is removed, and only it |
| Text.ParseTime | src/main/java/com/benchmark/BenchmarkConstant.java:6 | an HH:mm time parses to a whole number of minutes |
| Text.FormatTime | src/main/java/com/benchmark/BenchmarkConstant.java:6 | an HH:mm rendering is five characters long |
| Text.ParseFormatTime | src/main/java/com/benchmark/BenchmarkConstant.java:6 | a whole-minute time formatted as HH:mm parses back to itself |
| Text.FormatParseTime | src/main/java/com/benchmark/BenchmarkConstant.java:6 | a string that parses as HH:mm is the formatting of the time it denotes |
| Text.ParseDecimal | src/main/java/com/benchmark/VolumeProfile.java:162 | a negative value parses only from text whose trimmed form starts with '-' |
| Text.NegativeTextNotPositive | src/main/java/com/benchmark/VolumeProfile.java:162 | text whose trimmed form starts with '-' never parses to a positive value |
| Text.DecimalAccepted | src/main/java/com/benchmark/VolumeProfile.java:162-166 | accepted text is, once trimmed, an optional sign, then digits with at most one point and at least one digit; text with any other character is rejected, as the NumberFormatException branch rejects it |
| Text.ParseUnsignedAsDecimal | src/main/java/com/benchmark/VolumeProfile.java:162 | accepted unsigned text without a sign parses to its own value |
| Text.ParseNegated | src/main/java/com/benchmark/VolumeProfile.java:162 | "-" in front of any accepted unsigned text parses to minus its value |
| Text.ParsePlus | src/main/java/com/benchmark/VolumeProfile.java:162 | "+" in front of accepted unsigned text parses exactly as the text alone |
| Text.ParseDecimalTrimmed | src/main/java/com/benchmark/VolumeProfile.java:162 | blanks around the share are ignored: any text parses exactly as its trimmed form |
| Text.ParseDecimalPadded | src/main/java/com/benchmark/VolumeProfile.java:162 | accepted unsigned text padded with any blanks, such as " 0.5", parses to the value of the text alone |
| Text.ParseUnsignedDecimal | src/main/java/com/benchmark/VolumeProfile.java:162 | unsigned decimal text denotes a value of at least 0 |
| Text.ParseUnsignedDigits | src/main/java/com/benchmark/VolumeProfile.java:162 | a non-empty run of digits is accepted with its decimal value |
| Text.UnsignedDecimalAccepted | src/main/java/com/benchmark/VolumeProfile.java:162-166 | accepted unsigned text is digits with at most one point, and neither empty nor a lone point |
| Text.ParseUnsignedPointed | src/main/java/com/benchmark/VolumeProfile.java:162 | digits, a point and digits, with at least one digit, are accepted with the whole part plus the fraction |
| Text.ParseDigitsPointDigits | src/main/java/com/benchmark/VolumeProfile.java:162 | digits, a point and digits parse to the whole part plus the fraction |
| Text.ParseFormatDecimal | src/main/java/com/benchmark/VolumeProfile.java:162 | a decimal written with a given number of places parses back to its value |
| Rows.ParseEntry | src/main/java/com/benchmark/VolumeProfile.java:131-178 | a line that does not split into exactly 4 fields fails with FieldCount quoting the count; every failure is an IllegalArgumentException; a parsed bucket starts before it ends, on whole minutes, has a non-negative share and a known category |
| Rows.ParseFields | src/main/java/com/benchmark/VolumeProfile.java:139-178 | succeeds if and only if both times parse with the end after the start, the share parses and is not negative, and the trimmed type names a category; otherwise the first failing check decides the error: InvalidStartTime, InvalidEndTime, EndNotAfterStart, InvalidPercentage, NegativePercentage, EmptyType (InvalidBucketType in ParseFieldsRejectsType) |
| Rows.ParseEntryOfFields | src/main/java/com/benchmark/VolumeProfile.java:132-136 | a line that splits into four fields is judged by those fields alone |
| Rows.ParseEntryOfLine | src/main/java/com/benchmark/VolumeProfile.java:132-136 | a line of four comma-free fields is judged by those fields |
| Rows.ParseFieldsSpells | src/main/java/com/benchmark/VolumeProfile.java:181 | fields whose times and share pass can only yield the bucket they spell, with the type trimmed |
| Rows.ParseFieldsFailsOnType | src/main/java/com/benchmark/VolumeProfile.java:171-178 | such fields can only fail on the type, naming the trimmed type and the line number |
| Rows.ParseFieldsAccepts | src/main/java/com/benchmark/VolumeProfile.java:139-181 | fields passing every check yield exactly the bucket they spell |
| Rows.ParseFieldsRejectsType | src/main/java/com/benchmark/VolumeProfile.java:176-178 | fields passing every check but the category are rejected as an invalid bucket type |
| Rows.LineResults | src/main/java/com/benchmark/VolumeProfile.java:79-83 | one outcome per data line |
| Rows.Collect | src/main/java/com/benchmark/VolumeProfile.java:81-84 | the loop keeps at most one bucket per line, and one per line when no line fails |
| Rows.CollectNext | src/main/java/com/benchmark/VolumeProfile.java:81-84 | after lines that all passed, the next line either appends its bucket or stops the loop with its error |
| Rows.CollectEntry | src/main/java/com/benchmark/VolumeProfile.java:81-84 | each bucket kept is the parse of the line at its own position |
| Rows.CollectFailure | src/main/java/com/benchmark/VolumeProfile.java:81-84 | the error reported is that of the first failing line, and no error is reported if and only if every line parses |
| Rows.ParseLines | src/main/java/com/benchmark/VolumeProfile.java:78-84 | a failing data line fails with an IllegalArgumentException |
| Rows.NoCommaInTime | src/main/java/com/benchmark/BenchmarkConstant.java:6 | an HH:mm rendering has no comma |
| Rows.NoCommaInDecimal | src/main/java/com/benchmark/VolumeProfile.java:162 | a rendered decimal has no comma and does not start with a blank |
| Rows.FormattedPercentage | src/main/java/com/benchmark/VolumeProfile.java:160-168 | a rendered share parses back to itself and passes the non-negative check |
| Rows.NameIsPlain | src/main/java/com/benchmark/BucketType.java:4 | every category identifier is non-empty upper-case letters |
| Rows.BucketNameIsPlain | src/main/java/com/benchmark/VolumeProfile.java:171-178 | a recognised category survives the trim unchanged and holds no comma |
| Rows.SplitFormatRow | src/main/java/com/benchmark/VolumeProfile.java:132-136 | a bucket written as a CSV line splits back into its four fields |
| Rows.ParseFormatRow | src/main/java/com/benchmark/VolumeProfile.java:131-181 | round trip: every bucket the parser can produce, written as a CSV line, parses back to the same bucket |
| Rows.MissingTypeRejected | src/test/java/com/bechmark/VolumeProfileTest.java:38-45 | "08:00,09:00,0.5" is rejected for having 3 fields |
| Rows.EndBeforeStartRejected | src/test/java/com/bechmark/VolumeProfileTest.java:47-54 | "08:00,07:00,0.5,type" is rejected for its end time before the type is looked at |
| Rows.TypeFieldTrimmed | src/main/java/com/benchmark/VolumeProfile.java:171 | a category padded on either side with any characters at or below U+0020 is accepted and stored trimmed |
| Rows.TypeFieldCaseSensitive | src/main/java/com/benchmark/VolumeProfile.java:176-178 | "cts" is rejected as an invalid bucket type |
| Validation.HighShareEntries | src/main/java/com/benchmark/Validation.java:26-33 | the warned entries are drawn from the list, all above 0.3, and every entry above 0.3 is warned about |
| Validation.ValidatePercentage | src/main/java/com/benchmark/Validation.java:20-34 | fails with a ValidationException quoting the total if and only if the total is more than 0.0001 from 1.0; otherwise warns exactly about the entries above 0.3 |
| Validation.WholeMinutes | src/main/java/com/benchmark/Validation.java:38 | toMinutes truncates toward zero: for a forward interval the whole minutes it contains; negative exactly when the interval runs back a minute or more |
| Validation.MinutesOfAbsentType | src/main/java/com/benchmark/Validation.java:37 | a category absent from the list sums to 0 minutes |
| Validation.MinutesOfTypeAppend | src/main/java/com/benchmark/Validation.java:37 | per-category minutes add up over appended lists |
| Validation.SumDurationsByType | src/main/java/com/benchmark/Validation.java:36-46 | fails with a RuntimeException if and only if some entry has negative minutes; otherwise its keys are exactly the categories present and each value is that category's total minutes |
| Validation.SumDurationsNamesFirstNegative | src/main/java/com/benchmark/Validation.java:36-43 | the RuntimeException names the time range of the first entry, in list order, whose whole minutes are negative |
| Validation.ExpectedMinutes | src/main/java/com/benchmark/Validation.java:67-88 | the fixed length of each known session: POS 30, CAS 10, L 60, CTS 330, and none for other categories |
| Validation.EntriesValid | src/main/java/com/benchmark/Validation.java:51-90 | what validateEntries accepts: a non-empty, contiguous list with no negative duration whose known categories have their fixed lengths; ValidateEntries is proved to pass exactly on it |
| Validation.ValidateEntries | src/main/java/com/benchmark/Validation.java:51-90 | passes if and only if the list is non-empty, contiguous and every known category has its fixed length; an empty list and the first gap are reported as such, otherwise a wrong category is named with its sum |
| Cumulative.Contribution | src/main/java/com/benchmark/VolumeProfile.java:210-231 | what one entry adds to the sum, branch by branch; ContributionCases, ContributionBounds and ContributionMonotone state its properties |
| Cumulative.CumulativeOf | src/main/java/com/benchmark/VolumeProfile.java:206-234 | the loop's running sum over the list; CumulativeBounds, CumulativeMonotone and CumulativeCoversAll state its properties |
| Cumulative.NormalizedTarget | src/main/java/com/benchmark/VolumeProfile.java:246-270 | every failure is an IllegalArgumentException; the NormalizedTarget lemmas give its errors, bounds, monotonicity and value at the period end |
| Cumulative.CumulativeOfNext | src/main/java/com/benchmark/VolumeProfile.java:208-232 | each entry adds its contribution to the running sum in list order |
| Cumulative.ContributionCases | src/main/java/com/benchmark/VolumeProfile.java:210-231 | by how a proper bucket and range lie: nothing when they at most touch, the whole share when inside, else the share scaled by the seconds counted, with a bucket straddling the start counted to its own end |
| Cumulative.ContributionBounds | src/main/java/com/benchmark/VolumeProfile.java:214-231 | a bucket adds between nothing and its whole share |
| Cumulative.ContributionMonotone | src/main/java/com/benchmark/VolumeProfile.java:214-231 | a bucket adds no less when the range end moves later |
| Cumulative.CumulativeBounds | src/main/java/com/benchmark/VolumeProfile.java:206-234 | with non-negative shares, the cumulative share lies between 0 and the total share |
| Cumulative.CumulativeMonotone | src/main/java/com/benchmark/VolumeProfile.java:206-234 | with non-negative shares, the cumulative share never falls as the range end moves later |
| Cumulative.CumulativeCoversAll | src/main/java/com/benchmark/VolumeProfile.java:228-231 | a range covering every bucket collects the sum of all shares |
| Cumulative.CumulativePercentage | src/main/java/com/benchmark/VolumeProfile.java:195-235 | fails with an IllegalArgumentException if and only if the end is not after the start; otherwise the loop's sum |
| Cumulative.NormalizedTargetErrors | src/main/java/com/benchmark/VolumeProfile.java:252-266 | the two range errors, the failure at the period start when the period has volume, and success in every other case |
| Cumulative.NormalizedTargetEmptyPeriod | src/main/java/com/benchmark/VolumeProfile.java:261-264 | a period with no volume answers 0 at every time in it |
| Cumulative.NormalizedTargetAtEnd | src/main/java/com/benchmark/VolumeProfile.java:266-269 | at the period end the answer is 1 |
| Cumulative.NormalizedTargetBounds | src/main/java/com/benchmark/VolumeProfile.java:246-270 | with non-negative shares every answer lies in [0, 1] |
| Cumulative.NormalizedTargetMonotone | src/main/java/com/benchmark/VolumeProfile.java:246-270 | with non-negative shares the answer is defined after the period start and never falls as time moves on |
| Cumulative.WorkedExample | src/main/java/com/benchmark/VolumeProfile.java:195-270 | on buckets 0.4, 0.3, 0.3 from 09:30, 09:30-09:32 collects 0.7 and the target at 09:31:30 of 09:30-09:33 is 0.55 |
| Twap.ShareIsPerValidBucket | src/main/java/com/benchmark/VolumeProfile.java:98 | each volume-carrying bucket gets 1 / VALID_BUCKETS, so VALID_BUCKETS shares make 1 |
| Twap.CtsRun | src/main/java/com/benchmark/VolumeProfile.java:102-108 | a loop of n steps appends n buckets |
| Twap.Layout | src/main/java/com/benchmark/VolumeProfile.java:97-123 | the generated list has the two loops' buckets plus three fixed buckets |
| Twap.GeneratedTwapEntries | src/main/java/com/benchmark/VolumeProfile.java:97-123 | the list generateTwapProfile appends, with loops of 151 and 181 steps: 335 buckets |
| Twap.IntendedTwapEntries | src/main/java/com/benchmark/VolumeProfile.java:97-123 | the list with loops of 150 and 180 steps: 333 buckets |
| Twap.AppendLayout | src/main/java/com/benchmark/VolumeProfile.java:99-120 | appending the parts one after another appends the whole layout |
| Twap.CtsRunAt | src/main/java/com/benchmark/VolumeProfile.java:103-105 | step i of a loop is the one-minute CTS bucket starting i minutes in |
| Twap.CtsRunTotal | src/main/java/com/benchmark/VolumeProfile.java:102-108 | a loop of n steps adds n shares |
| Twap.CtsRunMinutes | src/main/java/com/benchmark/VolumeProfile.java:102-108 | a loop of n steps adds n CTS minutes and nothing to other categories |
| Twap.LayoutTotal | src/main/java/com/benchmark/VolumeProfile.java:97-123 | the shares of the layout add up to one share per volume-carrying bucket |
| Twap.LayoutMinutes | src/main/java/com/benchmark/VolumeProfile.java:97-123 | the layout has 30 POS, 60 L, 10 CAS minutes and one CTS minute per loop step |
| Twap.LayoutAt | src/main/java/com/benchmark/VolumeProfile.java:97-123 | where each bucket of the layout sits in the list |
| Twap.LayoutProper | src/main/java/com/benchmark/VolumeProfile.java:97-123 | every bucket of the layout starts before it ends, so no duration is negative |
| Twap.GeneratedTwapShape | src/main/java/com/benchmark/VolumeProfile.java:102-122 | the generated profile has 335 buckets, shares adding to 334/332, and 332 CTS minutes |
| Twap.GeneratedTwapFirstGap | src/main/java/com/benchmark/VolumeProfile.java:102-110 | the generated profile is contiguous up to the 12:00-12:01 bucket, which overlaps lunch, so validateEntries rejects it |
| Twap.IntendedTwapContiguous | src/main/java/com/benchmark/VolumeProfile.java:97-123 | with the intended loop bounds, every bucket ends where the next starts |
| Twap.IntendedTwapDurations | src/main/java/com/benchmark/VolumeProfile.java:97-123 | with the intended loop bounds, every session has its fixed length |
| Twap.IntendedTwapValid | src/main/java/com/benchmark/VolumeProfile.java:97-123 | with the intended loop bounds, 333 buckets whose shares add to exactly 1 and which pass validateEntries |
| VolumeProfiles.Index | src/main/java/com/benchmark/VolumeProfile.java:183 | the map the entryMap.put calls build from the list in order; IndexLookup and IndexAppend state its properties |
| VolumeProfiles.LastIndexStartingAt | src/main/java/com/benchmark/VolumeProfile.java:279 | the position of the last bucket starting at the time, with no later bucket starting there |
| VolumeProfiles.LastStartingAt | src/main/java/com/benchmark/VolumeProfile.java:279 | none if and only if no bucket starts at the time; otherwise the last bucket added with that start |
| VolumeProfiles.IndexLookup | src/main/java/com/benchmark/VolumeProfile.java:183 | the map, filled in list order, holds a key if and only if some bucket starts there, and maps it to the last such bucket |
| VolumeProfiles.IndexAppend | src/main/java/com/benchmark/VolumeProfile.java:182-183 | adding a bucket to the list puts it in the map under its start |
| VolumeProfiles.RethrowAsWritten | src/main/java/com/benchmark/ValidationException.java:17-20 | wrapping a ValidationException that has no cause raises a NullPointerException |
| VolumeProfiles.Rethrow | src/main/java/com/benchmark/VolumeProfile.java:89-91 | the intended wrapping: a ValidationException whose cause is the original |
| VolumeProfiles.LoaderFailuresEscapeFallback | src/main/java/com/benchmark/VolumeProfile.java:40-54 | a bad header or total, wrapped as written, is not caught by the constructor's fallback; wrapped as intended, it is |
| VolumeProfiles.CaughtByFallback | src/main/java/com/benchmark/VolumeProfile.java:41-54 | the fallback catches a ValidationException; an IllegalArgumentException, RuntimeException, NullPointerException or DateTimeParseException escapes it |
| VolumeProfiles.CollectStopsAtFailure | src/main/java/com/benchmark/VolumeProfile.java:81-84 | once a line has failed, later lines change nothing |
| VolumeProfiles.VolumeProfile.constructor | src/main/java/com/benchmark/VolumeProfile.java:30-32 | a new profile is empty, with a total of 0 |
| VolumeProfiles.VolumeProfile.ParseAndAddEntry | src/main/java/com/benchmark/VolumeProfile.java:131-185 | a failing line changes nothing and raises its error; a passing line appends its bucket, indexes it by start and adds its share |
| VolumeProfiles.VolumeProfile.Add | src/main/java/com/benchmark/VolumeProfile.java:99-100 | appends a bucket and indexes it, leaving the total alone |
| VolumeProfiles.VolumeProfile.AppendMinutes | src/main/java/com/benchmark/VolumeProfile.java:102-108 | the loop i = 0..last appends exactly the run of last + 1 one-minute buckets |
| VolumeProfiles.VolumeProfile.GenerateTwapProfile | src/main/java/com/benchmark/VolumeProfile.java:97-123 | appends the generated layout after what is loaded and records a total of 1 |
| VolumeProfiles.VolumeProfile.GetCumulativePercentage | src/main/java/com/benchmark/VolumeProfile.java:195-235 | the answer is CumulativePercentage of the current list |
| VolumeProfiles.VolumeProfile.GetNormalizedTargetPercent | src/main/java/com/benchmark/VolumeProfile.java:246-270 | the answer is NormalizedTarget of the current list |
| VolumeProfiles.VolumeProfile.GetEntry | src/main/java/com/benchmark/VolumeProfile.java:278-282 | the map lookup finds the last bucket added with that start, or reports none |
| VolumeProfiles.VolumeProfile.GetEntryByText | src/main/java/com/benchmark/VolumeProfile.java:272-276 | text that is not HH:mm raises a DateTimeParseException; otherwise the lookup of the time it denotes |
| VolumeProfiles.VolumeProfile.AddDataLines | src/main/java/com/benchmark/VolumeProfile.java:78-84 | appends the buckets of the lines before the first bad one and adds their shares; fails with that line's error if and only if there is one |
| VolumeProfiles.VolumeProfile.LoadFromLines | src/main/java/com/benchmark/VolumeProfile.java:62-92 | a bad header changes nothing and fails; otherwise (the header equals "start,end,percentage,type") the good lines are added; a clean read passes if and only if the list and the total both validate; list errors surface as RuntimeException, total errors go through the rethrow |

## Left out

- **File handling.** `loadFromCSV`'s file handling is not modelled: the
  existence check, the `FileNotFoundException`, opening the reader and
  `IOException`. `LoadFromLines` takes the first line (None for an empty
  file) and the remaining lines as parameters.
- **File-path constructor.** `VolumeProfile(String filePath)` and its fallback
  chain are not modelled, because they need the file system. The chain loads
  the given file, then the default file, then generates the TWAP profile.
  The constructor of the model is the field initialisers only. Which
  failures reach the fallback is stated by
  `VolumeProfiles.LoaderFailuresEscapeFallback`.
- **Logging.** Log calls and the exact wording of messages are not modelled.
  A `Reason` carries the values a message quotes.
  `Validation.ValidatePercentage` returns the list of warned entries in place
  of logging them.
- **Null checks.** The null checks in `getCumulativePercentage` and
  `getNormalizedTargetPercent` are not modelled, because Dafny values are
  never null.
- Text.ParseDecimal: models `Double.parseDouble` only for plain decimals: surrounding blanks, an optional sign, digits and an optional point. Exponents, hexadecimal, `NaN`, `Infinity` and type suffixes are not modelled.
- **Floating point.** Shares are exact reals, so double rounding is not
  modelled. In particular, the source's `1/332` shares and running sums are
  not rounded. The tolerance check in `validatePercentage` is still modelled
  as written.
- Text.ParseTime: accepts exactly two digits, a colon and two digits, with hour <= 23 and minute <= 59. The formatter's resolver handling of "24:00" is not modelled.
- **Time precision.** Times have one-second resolution, so `LocalTime`
  nanoseconds are not modelled. Every time a parsed profile holds is a whole
  minute.
- VolumeProfiles.VolumeProfile.GetEntry: returns the bucket found, or None for the "Entry not found at …" message. The text of `Entry.toString` and of `LocalTime.toString` is not modelled.
- VolumeProfiles.VolumeProfile.GetEntryByText: shares the `GetEntry` simplification above.
- Validation.ValidateEntries: iterates a `HashMap`, whose order is unspecified. When several categories have the wrong length, the model does not say which one is reported, only that the one reported has the wrong length.
- **TreeMap order.** `entryMap` is an unordered `map`: only lookups by key use
  it, so its key order is not observable.
- VolumeProfiles.VolumeProfile.AppendMinutes: the source writes its two minute loops inline in `generateTwapProfile`. They are factored into one method here, and the loop bounds are kept.
- VolumeProfiles.VolumeProfile.AddDataLines: the read loop of `loadFromCSV`, factored out of `LoadFromLines`.
- Rows.TypeFieldTrimmed: the line's time and share fields and the padding are kept symbolic, so the lemma holds for every such line rather than one sample.
- Rows.TypeFieldCaseSensitive: likewise symbolic in its time and share fields.
- **Entry.toString.** `Entry.toString` and its call to `BucketType.valueOf`
  are not modelled. The parser admits only known categories, so that call
  cannot fail on a loaded bucket.
- **Out of scope.** `BenchmarkApplication` and `BenchmarkConstant.FILE_PATH`
  are not part of this model.

## Findings

| source | as written | input that shows it | evidently intended | confidence | as-written member | corrected member |
|---|---|---|---|---|---|---|
| src/main/java/com/benchmark/VolumeProfile.java:102-118 | the minute loops run `i <= 150` and `i <= 180`, appending 151 and 181 one-minute CTS buckets | the generated profile itself: its bucket 12:00-12:01 overlaps the lunch bucket 12:00-13:00, the shares add to 334/332, and CTS has 332 minutes instead of 330 | loops `i < 150` and `i < 180`, giving 333 contiguous buckets whose shares add to exactly 1 and which pass `validateEntries` | high; not executed | Twap.GeneratedTwapFirstGap | Twap.IntendedTwapValid |
| src/main/java/com/benchmark/VolumeProfile.java:89-91 | `new ValidationException(e)` builds its message from `e.toString()`, which reads `getCause().getMessage()`; an exception made from a message has no cause | a file whose first line is `start,end,pct,type`: the header ValidationException is wrapped, and the wrapping raises a NullPointerException that the constructor's fallback does not catch | the rethrown ValidationException carries the original as its cause, so the constructor falls back to the default profile | high; not executed | VolumeProfiles.LoaderFailuresEscapeFallback | VolumeProfiles.Rethrow |

`GenerateTwapProfile` and `LoadFromLines` model the code as written. The corrected members state the intended behaviour beside them.
