/**
 * The session form: its five string fields, the numeric bounds, the default
 * values, the validator that maps each failing field to a message, and the
 * conversion of validated strings into the payload sent to the backend.
 */
module SessionForm {
  import opened Wrappers
  import opened JsString
  import opened JsParseInt
  import opened IsoDate

  const ENERGY_MIN: int := 1
  const ENERGY_MAX: int := 10

  const DURATION_MIN: int := 15
  const DURATION_MAX: int := 180
  /** Declared beside the duration bounds; the validator never consults it. */
  const DURATION_STEP: int := 5

  const DEFAULT_DURATION: nat := 60
  const DEFAULT_ENERGY: nat := 5

  /** The form's values: every field is the raw text the user typed. */
  datatype Values = Values(name: string, duration: string, energy: string, note: string, date: string)

  datatype Field = Name | Duration | Energy | Note | Date

  /** A partial record from field to error message. */
  type Errors = map<Field, string>

  function FieldValue(v: Values, f: Field): string {
    match f
    case Name => v.name
    case Duration => v.duration
    case Energy => v.energy
    case Note => v.note
    case Date => v.date
  }

  const NAME_REQUIRED: string := "Name is required"
  const DATE_REQUIRED: string := "Date is required"
  const DATE_FORMAT: string := "Use YYYY-MM-DD format"
  const DURATION_REQUIRED: string := "Duration is required"
  const DURATION_RANGE: string :=
    "Between 15 and 180 minutes"
  const ENERGY_REQUIRED: string := "Energy level is required"
  const ENERGY_RANGE: string :=
    "Enter a number between 1 and 10"

  /** The range messages interpolate the bounds into their text. */
  lemma {:induction false} RangeMessages()
    ensures DURATION_RANGE
      == "Between " + IntToString(DURATION_MIN) + " and " + IntToString(DURATION_MAX) + " minutes"
    ensures ENERGY_RANGE
      == "Enter a number between " + IntToString(ENERGY_MIN) + " and " + IntToString(ENERGY_MAX)
  {
    BoundTexts();
  }

  lemma {:induction false} BoundTexts()
    ensures IntToString(DURATION_MIN) == "15" && IntToString(DURATION_MAX) == "180"
    ensures IntToString(ENERGY_MIN) == "1" && IntToString(ENERGY_MAX) == "10"
  {
    DecimalOf(1, 5);
    DecimalOf(1, 0);
    DecimalOf(18, 0);
    DecimalOf(1, 8);
  }

  /** `String(10 * h + d)` is `String(h)` followed by the digit `d`. */
  lemma {:induction false} DecimalOf(h: nat, d: nat)
    requires 1 <= h && d < 10
    ensures NatToDecimal(10 * h + d) == NatToDecimal(h) + [DigitChar(d)]
  {
    var n := 10 * h + d;
    assert n / 10 == h && n % 10 == d;
  }

  // ---- One check per field ------------------------------------------------
  // Each check reads its field through `Trim` and then inspects only the
  // trimmed text.

  function NameCheck(t: string): Option<string> {
    if t == "" then Some(NAME_REQUIRED) else None
  }

  function DateCheck(t: string): Option<string> {
    if t == "" then Some(DATE_REQUIRED)
    else if !IsIsoDateShape(t) then Some(DATE_FORMAT)
    else None
  }

  /** The shared check of the two numeric fields: required, then a leading
      integer within [lo, hi]. NaN (`None`) fails like an out-of-range
      number. */
  function BoundedIntCheck(t: string, lo: int, hi: int, required: string, outOfRange: string): Option<string> {
    if t == "" then Some(required)
    else match ParseInt(t)
      case None => Some(outOfRange)
      case Some(n) => if n < lo || n > hi then Some(outOfRange) else None
  }

  function NameError(name: string): Option<string> {
    NameCheck(Trim(name))
  }

  function DateError(date: string): Option<string> {
    DateCheck(Trim(date))
  }

  function BoundedIntError(s: string, lo: int, hi: int, required: string, outOfRange: string): Option<string> {
    BoundedIntCheck(Trim(s), lo, hi, required, outOfRange)
  }

  function DurationError(duration: string): Option<string> {
    BoundedIntError(duration, DURATION_MIN, DURATION_MAX, DURATION_REQUIRED, DURATION_RANGE)
  }

  function EnergyError(energy: string): Option<string> {
    BoundedIntError(energy, ENERGY_MIN, ENERGY_MAX, ENERGY_REQUIRED, ENERGY_RANGE)
  }

  /** The check that applies to field `f`; the note is never checked. */
  function FieldError(f: Field, value: string): Option<string> {
    match f
    case Name => NameError(value)
    case Date => DateError(value)
    case Duration => DurationError(value)
    case Energy => EnergyError(value)
    case Note => None
  }

  /** Adds `f` to `errors` when the check produced a message. */
  function Record(errors: Errors, f: Field, e: Option<string>): Errors {
    match e
    case None => errors
    case Some(msg) => errors[f := msg]
  }

  /** The message recorded for `f`, if any. */
  function Lookup(errors: Errors, f: Field): Option<string> {
    if f in errors then Some(errors[f]) else None
  }

  // ---- The validator ------------------------------------------------------

  /** `validateSessionForm`: starts from no errors and records the name,
      date, duration and energy checks in that order. A field is a key of
      the result exactly when its own check fails, and then it maps to that
      check's message; the note is never a key. */
  function Validate(v: Values): (errors: Errors)
    ensures errors.Keys <= {Name, Date, Duration, Energy}
    ensures Lookup(errors, Name) == NameError(v.name)
    ensures Lookup(errors, Date) == DateError(v.date)
    ensures Lookup(errors, Duration) == DurationError(v.duration)
    ensures Lookup(errors, Energy) == EnergyError(v.energy)
  {
    var name := NameError(v.name);
    var date := DateError(v.date);
    var duration := DurationError(v.duration);
    var energy := EnergyError(v.energy);
    var e := Record(Record(Record(Record(map[], Name, name), Date, date), Duration, duration), Energy, energy);
    RecordAll(name, date, duration, energy);
    e
  }

  /** Recording four outcomes into an empty record keeps each one under its
      own field and nothing else. */
  lemma {:induction false} RecordAll(name: Option<string>, date: Option<string>,
                                     duration: Option<string>, energy: Option<string>)
    ensures var e := Record(Record(Record(Record(map[], Name, name), Date, date), Duration, duration), Energy, energy);
      && e.Keys <= {Name, Date, Duration, Energy}
      && Lookup(e, Name) == name && Lookup(e, Date) == date
      && Lookup(e, Duration) == duration && Lookup(e, Energy) == energy
  {
  }

  /** Field by field: the entry for `f` is what `f`'s own check says. */
  lemma {:induction false} ValidateFieldwise(v: Values, f: Field)
    ensures Lookup(Validate(v), f) == FieldError(f, FieldValue(v, f))
  {
    if f == Note {
      assert Note !in Validate(v);
    }
  }

  /** The name error is present exactly when the name is blank. */
  lemma {:induction false} NameRule(v: Values)
    ensures Name in Validate(v) <==> AllWhiteSpace(v.name)
    ensures Name in Validate(v) ==> Validate(v)[Name] == "Name is required"
  {
    TrimEmptyIff(v.name);
  }

  /** The date gets exactly one of three outcomes: required when blank, a
      format error when the trimmed text is not `YYYY-MM-DD`, none otherwise.
      Only the shape is checked, so `2024-13-45` passes. */
  lemma {:induction false} DateRule(v: Values)
    ensures AllWhiteSpace(v.date) ==>
      Date in Validate(v) && Validate(v)[Date] == "Date is required"
    ensures !AllWhiteSpace(v.date) && !IsIsoDateShape(Trim(v.date)) ==>
      Date in Validate(v) && Validate(v)[Date] == "Use YYYY-MM-DD format"
    ensures Date !in Validate(v) <==> IsIsoDateShape(Trim(v.date))
  {
    TrimEmptyIff(v.date);
  }

  /** The number a numeric field holds when it passes its check: some
      integer `parseInt` reads from the text, within [lo, hi]. */
  predicate ReadsInRange(s: string, lo: int, hi: int) {
    ParseInt(s).Some? && lo <= ParseInt(s).value <= hi
  }

  /** A numeric field fails exactly when `parseInt` of the raw text finds no
      integer in [lo, hi]; it says "required" exactly when it is blank. */
  lemma {:induction false} BoundedIntRule(s: string, lo: int, hi: int, required: string, outOfRange: string)
    ensures BoundedIntError(s, lo, hi, required, outOfRange).None? <==> ReadsInRange(s, lo, hi)
    ensures AllWhiteSpace(s) ==> BoundedIntError(s, lo, hi, required, outOfRange) == Some(required)
    ensures !AllWhiteSpace(s) && !ReadsInRange(s, lo, hi) ==>
      BoundedIntError(s, lo, hi, required, outOfRange) == Some(outOfRange)
  {
    TrimEmptyIff(s);
    ParseIntOfTrim(s);
    if Trim(s) == "" {
      assert ParseInt("") == None;
    }
  }

  /** The duration error is present exactly when the text holds no leading
      integer in [15, 180]. Trailing text after the digits is ignored and the
      step of 5 is not enforced. */
  lemma {:induction false} DurationRule(v: Values)
    ensures Duration !in Validate(v) <==> ReadsInRange(v.duration, 15, 180)
    ensures Duration in Validate(v) ==>
      Validate(v)[Duration] == (if AllWhiteSpace(v.duration) then "Duration is required"
                                else "Between 15 and 180 minutes")
  {
    BoundedIntRule(v.duration, DURATION_MIN, DURATION_MAX, DURATION_REQUIRED, DURATION_RANGE);
  }

  /** The energy error is present exactly when the text holds no leading
      integer in [1, 10]. */
  lemma {:induction false} EnergyRule(v: Values)
    ensures Energy !in Validate(v) <==> ReadsInRange(v.energy, 1, 10)
    ensures Energy in Validate(v) ==>
      Validate(v)[Energy] == (if AllWhiteSpace(v.energy) then "Energy level is required"
                              else "Enter a number between 1 and 10")
  {
    BoundedIntRule(v.energy, ENERGY_MIN, ENERGY_MAX, ENERGY_REQUIRED, ENERGY_RANGE);
  }

  /** Because `parseInt` reads only the leading digits, "60min" is a valid
      duration, and so is 61, which is off the step of 5. */
  lemma {:induction false} DurationAcceptsTrailingTextAndOffStep(v: Values)
    requires v.duration == "60min" || v.duration == "61"
    ensures Duration !in Validate(v)
  {
    if v.duration == "60min" {
      assert IntToString(60) + "min" == "60min";
      ParseIntOfIntToStringWithSuffix(60, "min");
    } else {
      assert IntToString(61) == "61";
      ParseIntOfIntToString(61);
    }
    DurationRule(v);
  }

  /** Each field's outcome depends on that field's value alone. */
  lemma {:induction false} ValidateFieldLocal(v: Values, w: Values, f: Field)
    requires FieldValue(v, f) == FieldValue(w, f)
    ensures f in Validate(v) <==> f in Validate(w)
    ensures f in Validate(v) ==> Validate(v)[f] == Validate(w)[f]
  {
    ValidateFieldwise(v, f);
    ValidateFieldwise(w, f);
  }

  function TrimValues(v: Values): Values {
    Values(Trim(v.name), Trim(v.duration), Trim(v.energy), Trim(v.note), Trim(v.date))
  }

  /** Two error records that agree on every field are the same record. */
  lemma {:induction false} ErrorsExtensional(a: Errors, b: Errors)
    requires forall f :: Lookup(a, f) == Lookup(b, f)
    ensures a == b
  {
    assert a.Keys == b.Keys by {
      forall f ensures f in a <==> f in b {
        assert Lookup(a, f) == Lookup(b, f);
      }
    }
    forall f | f in a ensures a[f] == b[f] {
      assert Lookup(a, f) == Lookup(b, f);
    }
  }

  /** No check is affected by trimming its input first. */
  lemma {:induction false} FieldErrorOfTrim(f: Field, s: string)
    ensures FieldError(f, Trim(s)) == FieldError(f, s)
  {
    var t := Trim(s);
    TrimIdempotent(s);
    match f
    case Name =>
      assert NameError(t) == NameCheck(Trim(t));
    case Date =>
      assert DateError(t) == DateCheck(Trim(t));
    case Duration =>
      assert BoundedIntError(t, DURATION_MIN, DURATION_MAX, DURATION_REQUIRED, DURATION_RANGE)
          == BoundedIntCheck(Trim(t), DURATION_MIN, DURATION_MAX, DURATION_REQUIRED, DURATION_RANGE);
    case Energy =>
      assert BoundedIntError(t, ENERGY_MIN, ENERGY_MAX, ENERGY_REQUIRED, ENERGY_RANGE)
          == BoundedIntCheck(Trim(t), ENERGY_MIN, ENERGY_MAX, ENERGY_REQUIRED, ENERGY_RANGE);
    case Note =>
  }

  /** Validating the field-wise trimmed copy gives the same errors. */
  lemma {:induction false} ValidateTrimmed(v: Values)
    ensures Validate(TrimValues(v)) == Validate(v)
  {
    forall f ensures Lookup(Validate(TrimValues(v)), f) == Lookup(Validate(v), f) {
      LookupTrimmed(v, f);
    }
    ErrorsExtensional(Validate(TrimValues(v)), Validate(v));
  }

  lemma {:induction false} LookupTrimmed(v: Values, f: Field)
    ensures Lookup(Validate(TrimValues(v)), f) == Lookup(Validate(v), f)
  {
    var w := TrimValues(v);
    ValidateFieldwise(w, f);
    ValidateFieldwise(v, f);
    if f != Note {
      assert FieldValue(w, f) == Trim(FieldValue(v, f));
      FieldErrorOfTrim(f, FieldValue(v, f));
    }
  }

  // ---- Defaults -----------------------------------------------------------

  lemma {:induction false} DefaultTexts()
    ensures IntToString(DEFAULT_DURATION) == "60"
    ensures IntToString(DEFAULT_ENERGY) == "5"
  {
    assert NatToDecimal(60) == NatToDecimal(6) + "0";
  }

  /** `getDefaultSessionFormValues` with the clock reading `now` as a
      parameter: empty name and note, the default duration and energy
      rendered as text, and today's date. The default duration and energy
      pass their own checks. */
  function DefaultValues(now: Instant): (v: Values)
    requires ValidInstant(now)
    ensures v.name == "" && v.note == ""
    ensures v.duration == "60" && v.energy == "5"
    ensures v.date == GetTodayIso(now)
    ensures DurationError(v.duration) == None && EnergyError(v.energy) == None
  {
    DefaultTexts();
    DefaultNumbersPass();
    Values("", IntToString(DEFAULT_DURATION), IntToString(DEFAULT_ENERGY), "", GetTodayIso(now))
  }

  lemma {:induction false} DefaultNumbersPass()
    ensures DurationError(IntToString(DEFAULT_DURATION)) == None
    ensures EnergyError(IntToString(DEFAULT_ENERGY)) == None
  {
    ParseIntOfIntToString(DEFAULT_DURATION);
    ParseIntOfIntToString(DEFAULT_ENERGY);
    BoundedIntRule(IntToString(DEFAULT_DURATION), DURATION_MIN, DURATION_MAX, DURATION_REQUIRED, DURATION_RANGE);
    BoundedIntRule(IntToString(DEFAULT_ENERGY), ENERGY_MIN, ENERGY_MAX, ENERGY_REQUIRED, ENERGY_RANGE);
  }

  /** A date of the `YYYY-MM-DD` shape passes the date check untouched. */
  lemma {:induction false} ShapedDatePasses(date: string)
    requires IsIsoDateShape(date)
    ensures DateError(date) == None
  {
    assert Tight(date);
    assert [] + date + [] == date;
    TrimUnique([], date, []);
  }

  /** The date check looks at the shape only: month 13 and day 45 pass. */
  lemma {:induction false} DateCheckIsShapeOnly()
    ensures DateError("2024-13-45") == None
  {
    ShapedDatePasses("2024-13-45");
  }

  /** Whenever the clock's year has four digits, the fresh form has exactly
      one error: the name is required. */
  lemma {:induction false} DefaultsValidation(now: Instant)
    requires ValidInstant(now) && 0 <= now.year <= 9999
    ensures Validate(DefaultValues(now)) == map[Name := "Name is required"]
  {
    var v := DefaultValues(now);
    ShapedDatePasses(v.date);
    assert Trim("") == "";
    var e := Validate(v);
    forall f ensures Lookup(e, f) == Lookup(map[Name := NAME_REQUIRED], f) {
      ValidateFieldwise(v, f);
    }
    ErrorsExtensional(e, map[Name := NAME_REQUIRED]);
  }

  // ---- Payload ------------------------------------------------------------

  /** The record sent to the backend. A numeric field is `None` where
      `parseInt` yields NaN. */
  datatype Payload = Payload(name: string, duration: Option<int>, energy: Option<int>,
                             note: string, date: string)

  /** `sessionFormValuesToPayload`. `isoDay(t)` stands for
      `new Date(t).toISOString().slice(0, 10)`, which is `None` where that
      throws; the whole conversion then throws, modelled as `None`. Name and
      note are trimmed and the numbers are what `parseInt` reads. */
  function ToPayload(v: Values, isoDay: string -> Option<string>): (p: Option<Payload>)
    ensures p.Some? <==> isoDay(Trim(v.date)).Some?
    ensures p.Some? ==> p.value.date == isoDay(Trim(v.date)).value
    ensures p.Some? ==> p.value.name == Trim(v.name) && p.value.note == Trim(v.note)
    ensures p.Some? ==> Tight(p.value.name) && Tight(p.value.note)
    ensures p.Some? ==> p.value.duration == ParseInt(v.duration) && p.value.energy == ParseInt(v.energy)
  {
    ParseIntOfTrim(v.duration);
    ParseIntOfTrim(v.energy);
    match isoDay(Trim(v.date))
    case None => None
    case Some(day) =>
      Some(Payload(Trim(v.name), ParseInt(Trim(v.duration)), ParseInt(Trim(v.energy)),
                   Trim(v.note), day))
  }

  /** The payload carries exactly the numbers the validator accepted: no
      duration error means a duration in [15, 180], no energy error an
      energy in [1, 10], and no name error a non-blank trimmed name. */
  lemma {:induction false} PayloadWithinBounds(v: Values, isoDay: string -> Option<string>)
    requires ToPayload(v, isoDay).Some?
    ensures var p := ToPayload(v, isoDay).value;
      && (Duration !in Validate(v) ==>
            p.duration.Some? && DURATION_MIN <= p.duration.value <= DURATION_MAX)
      && (Energy !in Validate(v) ==>
            p.energy.Some? && ENERGY_MIN <= p.energy.value <= ENERGY_MAX)
      && (Name !in Validate(v) ==> p.name != "" && p.name == Trim(v.name))
  {
    DurationRule(v);
    EnergyRule(v);
  }

  /** Converting the field-wise trimmed copy gives the same payload. */
  lemma {:induction false} PayloadTrimmed(v: Values, isoDay: string -> Option<string>)
    ensures ToPayload(TrimValues(v), isoDay) == ToPayload(v, isoDay)
  {
    TrimIdempotent(v.name);
    TrimIdempotent(v.duration);
    TrimIdempotent(v.energy);
    TrimIdempotent(v.note);
    TrimIdempotent(v.date);
  }
}
