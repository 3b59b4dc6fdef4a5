/** The limit edit form: the fields being edited, the two "unlimited"
    checkboxes, the "use default values" toggle, and what the form shows and
    submits. Each handler is a pure step from one form state to the next;
    `defaultLimit` is the default limit of the current snapshot. */
module EditLimitsForm {
  import opened Wrappers
  import opened WebTypes

  datatype FormState = FormState(
    maxHourlyRate: string,
    maxPending: string,
    mode: Mode,
    useDefaultValues: bool,
    hourlyUnlimited: bool,
    pendingUnlimited: bool)

  /** The user actions the form reacts to. */
  datatype FormEvent =
    | UseDefaultValuesChecked(checked: bool)
    | HourlyUnlimitedChecked(checked: bool)
    | PendingUnlimitedChecked(checked: bool)
    | HourlyTyped(value: string)
    | PendingTyped(value: string)
    | ModeSelected(selected: Mode)

  /** What the mode selector displays. */
  datatype SelectValue = ShowMode(mode: Mode) | AllowAll

  /** The glyph the form's source actually contains for an unlimited field:
      the UTF-8 bytes of "∞" read back as three separate characters. */
  const MisencodedInfinity := "\U{E2}\U{2C6}\U{17E}"

  /** The state the form opens with, seeded from `initial` when given. */
  function Init(initial: Option<Limit>): (st: FormState)
    ensures initial.None? ==> st.maxHourlyRate == "" && st.maxPending == "" && st.mode == Fail
    ensures initial.Some? ==> Submit(st) == initial.value
    ensures st.hourlyUnlimited <==> initial.Some? && initial.value.maxHourlyRate == UnlimitedValue
    ensures st.pendingUnlimited <==> initial.Some? && initial.value.maxPending == UnlimitedValue
    ensures !st.useDefaultValues
  {
    match initial
    case None => FormState("", "", Fail, false, false, false)
    case Some(l) =>
      FormState(l.maxHourlyRate, l.maxPending, l.mode, false,
                l.maxHourlyRate == UnlimitedValue, l.maxPending == UnlimitedValue)
  }

  /** The "use default values" toggle, as written: turning it on copies the
      default's fields and mode and raises an unlimited flag for a "0"
      default, but never lowers a flag; turning it off clears the form. */
  function UseDefaultValuesToggled(st: FormState, checked: bool, defaultLimit: Limit): (r: FormState)
    ensures r.useDefaultValues == checked
    ensures checked ==> Submit(r) == defaultLimit
    ensures checked ==> (st.hourlyUnlimited ==> r.hourlyUnlimited) && (st.pendingUnlimited ==> r.pendingUnlimited)
    ensures checked && defaultLimit.maxHourlyRate == UnlimitedValue ==> r.hourlyUnlimited
    ensures checked && defaultLimit.maxHourlyRate != UnlimitedValue ==> r.hourlyUnlimited == st.hourlyUnlimited
    ensures checked && defaultLimit.maxPending == UnlimitedValue ==> r.pendingUnlimited
    ensures checked && defaultLimit.maxPending != UnlimitedValue ==> r.pendingUnlimited == st.pendingUnlimited
    ensures !checked ==> Submit(r) == Limit("", "", Fail) && !r.hourlyUnlimited && !r.pendingUnlimited
  {
    if checked then
      st.(useDefaultValues := true,
          maxHourlyRate := defaultLimit.maxHourlyRate,
          hourlyUnlimited := st.hourlyUnlimited || defaultLimit.maxHourlyRate == UnlimitedValue,
          maxPending := defaultLimit.maxPending,
          pendingUnlimited := st.pendingUnlimited || defaultLimit.maxPending == UnlimitedValue,
          mode := defaultLimit.mode)
    else
      FormState("", "", Fail, false, false, false)
  }

  /** The toggle as evidently intended: turning it on copies the unlimited
      flags from the default too, so each flag agrees with its field. */
  function UseDefaultValuesToggledFixed(st: FormState, checked: bool, defaultLimit: Limit): (r: FormState)
    ensures r.useDefaultValues == checked
    ensures checked ==> Submit(r) == defaultLimit
    ensures checked ==> (r.hourlyUnlimited <==> defaultLimit.maxHourlyRate == UnlimitedValue)
    ensures checked ==> (r.pendingUnlimited <==> defaultLimit.maxPending == UnlimitedValue)
    ensures !checked ==> r == UseDefaultValuesToggled(st, checked, defaultLimit)
  {
    if checked then
      FormState(defaultLimit.maxHourlyRate, defaultLimit.maxPending, defaultLimit.mode, true,
                defaultLimit.maxHourlyRate == UnlimitedValue, defaultLimit.maxPending == UnlimitedValue)
    else
      UseDefaultValuesToggled(st, checked, defaultLimit)
  }

  /** Choosing a mode. Entering Block back-fills each empty field from the
      default, raising its flag when that default is "0"; filled fields, and
      every field under any other mode, are left alone. */
  function ModeChanged(st: FormState, value: Mode, defaultLimit: Limit): (r: FormState)
    ensures r.mode == value && r.useDefaultValues == st.useDefaultValues
    ensures value != Block ==> r == st.(mode := value)
    ensures st.maxHourlyRate != "" ==> r.maxHourlyRate == st.maxHourlyRate && r.hourlyUnlimited == st.hourlyUnlimited
    ensures st.maxPending != "" ==> r.maxPending == st.maxPending && r.pendingUnlimited == st.pendingUnlimited
    ensures value == Block && st.maxHourlyRate == "" ==>
      r.maxHourlyRate == defaultLimit.maxHourlyRate
      && r.hourlyUnlimited == (st.hourlyUnlimited || defaultLimit.maxHourlyRate == UnlimitedValue)
    ensures value == Block && st.maxPending == "" ==>
      r.maxPending == defaultLimit.maxPending
      && r.pendingUnlimited == (st.pendingUnlimited || defaultLimit.maxPending == UnlimitedValue)
  {
    var s1 := st.(mode := value);
    if value == Block then
      var s2 :=
        if st.maxHourlyRate == "" then
          s1.(maxHourlyRate := defaultLimit.maxHourlyRate,
              hourlyUnlimited := s1.hourlyUnlimited || defaultLimit.maxHourlyRate == UnlimitedValue)
        else s1;
      if st.maxPending == "" then
        s2.(maxPending := defaultLimit.maxPending,
            pendingUnlimited := s2.pendingUnlimited || defaultLimit.maxPending == UnlimitedValue)
      else s2
    else s1
  }

  /** One handler of the form, as written. */
  function Step(st: FormState, ev: FormEvent, defaultLimit: Limit): (r: FormState)
    ensures ev.HourlyUnlimitedChecked? ==>
      r == st.(hourlyUnlimited := ev.checked, maxHourlyRate := if ev.checked then UnlimitedValue else "")
    ensures ev.PendingUnlimitedChecked? ==>
      r == st.(pendingUnlimited := ev.checked, maxPending := if ev.checked then UnlimitedValue else "")
    ensures ev.HourlyTyped? ==>
      r == st.(maxHourlyRate := ev.value, hourlyUnlimited := st.hourlyUnlimited || ev.value == UnlimitedValue)
    ensures ev.PendingTyped? ==>
      r == st.(maxPending := ev.value, pendingUnlimited := st.pendingUnlimited || ev.value == UnlimitedValue)
  {
    match ev
    case UseDefaultValuesChecked(c) => UseDefaultValuesToggled(st, c, defaultLimit)
    case HourlyUnlimitedChecked(c) =>
      st.(hourlyUnlimited := c, maxHourlyRate := if c then UnlimitedValue else "")
    case PendingUnlimitedChecked(c) =>
      st.(pendingUnlimited := c, maxPending := if c then UnlimitedValue else "")
    case HourlyTyped(v) =>
      st.(hourlyUnlimited := st.hourlyUnlimited || v == UnlimitedValue, maxHourlyRate := v)
    case PendingTyped(v) =>
      st.(maxPending := v, pendingUnlimited := st.pendingUnlimited || v == UnlimitedValue)
    case ModeSelected(m) => ModeChanged(st, m, defaultLimit)
  }

  /** One handler of the form with the corrected "use default values" toggle. */
  function StepFixed(st: FormState, ev: FormEvent, defaultLimit: Limit): (r: FormState)
    ensures !ev.UseDefaultValuesChecked? ==> r == Step(st, ev, defaultLimit)
    ensures ev.UseDefaultValuesChecked? ==> r == UseDefaultValuesToggledFixed(st, ev.checked, defaultLimit)
  {
    match ev
    case UseDefaultValuesChecked(c) => UseDefaultValuesToggledFixed(st, c, defaultLimit)
    case _ => Step(st, ev, defaultLimit)
  }

  /** Whether the control behind `ev` is enabled: the "use default values" box
      exists only when editing peers and toggles its own state; an unlimited
      box is disabled by Block and by "use default values" and toggles the
      flag; a numeric input is also disabled by its own flag; the mode
      selector is disabled by "use default values" and while it shows
      `allow-all`. */
  predicate Enabled(st: FormState, ev: FormEvent, isNodeEdit: bool) {
    match ev
    case UseDefaultValuesChecked(c) => isNodeEdit && c == !st.useDefaultValues
    case HourlyUnlimitedChecked(c) => !st.useDefaultValues && st.mode != Block && c == !st.hourlyUnlimited
    case PendingUnlimitedChecked(c) => !st.useDefaultValues && st.mode != Block && c == !st.pendingUnlimited
    case HourlyTyped(_) => !st.hourlyUnlimited && !st.useDefaultValues && st.mode != Block
    case PendingTyped(_) => !st.pendingUnlimited && !st.useDefaultValues && st.mode != Block
    case ModeSelected(_) => !(SelectValueOf(st) == AllowAll || st.useDefaultValues)
  }

  /** The text a numeric input shows, as written: "0" under Block, the
      source's mis-encoded glyph for a stored "0", the stored text otherwise. */
  function MaskedLimit(st: FormState, value: string): (r: string)
    ensures st.mode == Block ==> r == UnlimitedValue
    ensures st.mode != Block && value == UnlimitedValue ==> r == MisencodedInfinity
    ensures st.mode != Block && value != UnlimitedValue ==> r == value
  {
    if st.mode == Block then UnlimitedValue
    else if value == UnlimitedValue then MisencodedInfinity
    else value
  }

  /** The masked text with the infinity glyph the rest of the console uses. */
  function MaskedLimitFixed(st: FormState, value: string): (r: string)
    ensures st.mode != Block && value == UnlimitedValue ==> r == InfinityGlyph
    ensures st.mode == Block || value != UnlimitedValue ==> r == MaskedLimit(st, value)
  {
    if st.mode == Block then UnlimitedValue
    else if value == UnlimitedValue then InfinityGlyph
    else value
  }

  /** As written, an unlimited field shows three stray characters rather
      than the infinity glyph the table and the default-limit panel show. */
  lemma MaskedInfinityIsMisencoded(st: FormState)
    requires st.mode != Block
    ensures MaskedLimit(st, UnlimitedValue) != InfinityGlyph
    ensures |MaskedLimit(st, UnlimitedValue)| == 3 && |InfinityGlyph| == 1
    ensures MaskedLimitFixed(st, UnlimitedValue) == InfinityGlyph
  {
  }

  /** The mode selector shows Block as itself, `allow-all` when both fields
      are unlimited, and the stored mode otherwise. */
  function SelectValueOf(st: FormState): (r: SelectValue)
    ensures r == AllowAll <==> st.mode != Block && st.hourlyUnlimited && st.pendingUnlimited
    ensures r.ShowMode? ==> r.mode == st.mode
  {
    if st.mode == Block then ShowMode(st.mode)
    else if st.hourlyUnlimited && st.pendingUnlimited then AllowAll
    else ShowMode(st.mode)
  }

  /** The submit button is disabled while a field is empty, or when the
      record it would submit is exactly the one the form was opened with.
      A `Mode` is never falsy, so the source's `!mode` test never fires. */
  function IsButtonDisabled(st: FormState, initial: Option<Limit>): (r: bool)
    ensures r <==> st.maxHourlyRate == "" || st.maxPending == "" || initial == Some(Submit(st))
  {
    st.maxHourlyRate == ""
    || st.maxPending == ""
    || (initial.Some?
        && st.maxHourlyRate == initial.value.maxHourlyRate
        && st.maxPending == initial.value.maxPending
        && st.mode == initial.value.mode)
  }

  /** The record handed to the form's owner on submit: the stored fields. */
  function Submit(st: FormState): (r: Limit)
    ensures r.maxHourlyRate == st.maxHourlyRate && r.maxPending == st.maxPending && r.mode == st.mode
  {
    Limit(st.maxHourlyRate, st.maxPending, st.mode)
  }

  /** Every unlimited flag agrees with its field: set exactly when the field
      holds "0". */
  predicate FlagsAgree(st: FormState) {
    && (st.hourlyUnlimited <==> st.maxHourlyRate == UnlimitedValue)
    && (st.pendingUnlimited <==> st.maxPending == UnlimitedValue)
  }

  /** The form opens with agreeing flags. */
  lemma InitFlagsAgree(initial: Option<Limit>)
    ensures FlagsAgree(Init(initial))
  {
  }

  /** The one-way half of `FlagsAgree`: a field holding "0" has its flag set. */
  predicate UnlimitedFieldsFlagged(st: FormState) {
    && (st.maxHourlyRate == UnlimitedValue ==> st.hourlyUnlimited)
    && (st.maxPending == UnlimitedValue ==> st.pendingUnlimited)
  }

  /** As written, a field that holds "0" always has its flag set, whatever
      the user does, so this half of the agreement survives every sequence
      of events, use-default steps included. */
  lemma StepKeepsUnlimitedFieldsFlagged(st: FormState, ev: FormEvent, defaultLimit: Limit)
    requires UnlimitedFieldsFlagged(st)
    ensures UnlimitedFieldsFlagged(Step(st, ev, defaultLimit))
  {
  }

  /** The form after handling `evs` in order, starting from `st`. */
  function Run(st: FormState, evs: seq<FormEvent>, defaultLimit: Limit): FormState {
    if |evs| == 0 then st else Step(Run(st, evs[..|evs| - 1], defaultLimit), evs[|evs| - 1], defaultLimit)
  }

  /** The opened form has the one-way property, and it is kept along any
      sequence of events. */
  lemma {:induction false} EventsKeepUnlimitedFieldsFlagged(initial: Option<Limit>, evs: seq<FormEvent>, defaultLimit: Limit)
    ensures UnlimitedFieldsFlagged(Run(Init(initial), evs, defaultLimit))
  {
    if |evs| == 0 {
      InitFlagsAgree(initial);
    } else {
      EventsKeepUnlimitedFieldsFlagged(initial, evs[..|evs| - 1], defaultLimit);
      StepKeepsUnlimitedFieldsFlagged(Run(Init(initial), evs[..|evs| - 1], defaultLimit), evs[|evs| - 1], defaultLimit);
    }
  }

  /** As written, turning "use default values" on can leave a flag set over
      a field that is no longer "0": a peer seeded with an unlimited limit
      and a default of 10/5 in Queue mode ends with flags that disagree, and
      the mode selector shows `allow-all` instead of Queue. */
  lemma UseDefaultLeavesStaleFlag()
    ensures var st := Init(Some(Limit("0", "0", Fail)));
      var ev := UseDefaultValuesChecked(true);
      var r := Step(st, ev, Limit("10", "5", Queue));
      && FlagsAgree(st)
      && Enabled(st, ev, true)
      && !FlagsAgree(r)
      && r.mode == Queue
      && SelectValueOf(r) == AllowAll
  {
  }

  /** With the corrected toggle, every enabled control keeps the flags in
      agreement with their fields. */
  lemma StepFixedKeepsFlagsAgree(st: FormState, ev: FormEvent, defaultLimit: Limit, isNodeEdit: bool)
    requires FlagsAgree(st) && Enabled(st, ev, isNodeEdit)
    ensures FlagsAgree(StepFixed(st, ev, defaultLimit))
  {
  }

  /** Under the corrected toggle the selector shows `allow-all` exactly when
      both stored fields are "0" and the mode is not Block. */
  lemma SelectValueMeansUnlimited(st: FormState)
    requires FlagsAgree(st)
    ensures SelectValueOf(st) == AllowAll <==>
      st.mode != Block && st.maxHourlyRate == UnlimitedValue && st.maxPending == UnlimitedValue
  {
  }

  /** Ticking an unlimited box shows the source's mis-encoded glyph (the
      infinity glyph once corrected); unticking it again leaves an empty
      field that blocks submission. */
  lemma UnlimitedRoundTrip(st: FormState, defaultLimit: Limit, initial: Option<Limit>)
    requires Enabled(st, HourlyUnlimitedChecked(true), false)
    ensures var on := Step(st, HourlyUnlimitedChecked(true), defaultLimit);
      var off := Step(on, HourlyUnlimitedChecked(false), defaultLimit);
      && MaskedLimit(on, on.maxHourlyRate) == MisencodedInfinity
      && MaskedLimitFixed(on, on.maxHourlyRate) == InfinityGlyph
      && Enabled(on, HourlyUnlimitedChecked(false), false)
      && off.maxHourlyRate == "" && !off.hourlyUnlimited
      && MaskedLimit(off, off.maxHourlyRate) == "" && MaskedLimitFixed(off, off.maxHourlyRate) == ""
      && off.maxPending == st.maxPending && off.mode == st.mode
      && IsButtonDisabled(off, initial)
  {
  }

  /** Under Block both inputs show "0" whatever is stored, while submit
      still sends the stored text. */
  lemma BlockMasksDisplayNotSubmission(st: FormState)
    requires st.mode == Block
    ensures MaskedLimit(st, st.maxHourlyRate) == UnlimitedValue
    ensures MaskedLimit(st, st.maxPending) == UnlimitedValue
    ensures Submit(st).maxHourlyRate == st.maxHourlyRate && Submit(st).maxPending == st.maxPending
    ensures st.maxHourlyRate != UnlimitedValue ==> Submit(st).maxHourlyRate != MaskedLimit(st, st.maxHourlyRate)
  {
  }

  /** Switching into Block and back out keeps the values already entered. */
  lemma BlockAndBackKeepsValues(st: FormState, m: Mode, defaultLimit: Limit)
    requires st.maxHourlyRate != "" && st.maxPending != "" && !st.useDefaultValues
    requires Enabled(st, ModeSelected(Block), false)
    ensures var inBlock := Step(st, ModeSelected(Block), defaultLimit);
      && Enabled(inBlock, ModeSelected(m), false)
      && Step(inBlock, ModeSelected(m), defaultLimit) == st.(mode := m)
  {
  }

  /** Entering Block from an empty form produces a complete record: the
      default's numbers with Block mode, ready to submit. */
  lemma BlockFromEmptyFormIsComplete(defaultLimit: Limit)
    requires defaultLimit.maxHourlyRate != "" && defaultLimit.maxPending != ""
    ensures var r := Step(Init(None), ModeSelected(Block), defaultLimit);
      && Submit(r) == Limit(defaultLimit.maxHourlyRate, defaultLimit.maxPending, Block)
      && !IsButtonDisabled(r, None)
  {
  }

  /** A form seeded with a limit cannot submit it unchanged; "0" counts as a
      filled field. */
  lemma SeededFormStartsDisabled(l: Limit)
    ensures IsButtonDisabled(Init(Some(l)), Some(l))
    ensures IsButtonDisabled(Init(None), None)
  {
  }

  /** A complete record that differs from the initial one can be submitted,
      including one whose fields are both "0". */
  lemma ChangedCompleteRecordIsSubmittable(st: FormState, initial: Option<Limit>)
    requires st.maxHourlyRate != "" && st.maxPending != ""
    requires initial != Some(Submit(st))
    ensures !IsButtonDisabled(st, initial)
  {
  }
}
