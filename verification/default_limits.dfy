/** The default-limit panel: how each of the three default settings is
    displayed, and the request its edit dialog sends. */
module DefaultLimits {
  import opened Wrappers
  import opened WebTypes
  import EditLimitsForm
  import NodeTable

  /** The three settings the panel shows. */
  datatype ConfigKind = MaxHourlyRate | MaxPending | ModeSetting

  /** The value a setting's box is given. */
  function ConfigValue(kind: ConfigKind, defaultLimit: Limit): string {
    match kind
    case MaxHourlyRate => defaultLimit.maxHourlyRate
    case MaxPending => defaultLimit.maxPending
    case ModeSetting => ModeValue(defaultLimit.mode)
  }

  /** `getString`: the text of one setting. */
  function GetString(kind: ConfigKind, defaultLimit: Limit, t: Translate): (r: string)
    ensures kind == ModeSetting && defaultLimit.mode == Block ==> r == t("modes." + ModeValue(Block))
    ensures kind == ModeSetting && defaultLimit.mode != Block ==>
      r == (if defaultLimit.maxHourlyRate == UnlimitedValue && defaultLimit.maxPending == UnlimitedValue
            then "-" else t("modes." + ModeValue(defaultLimit.mode)))
    ensures kind != ModeSetting && defaultLimit.mode == Block ==> r == "-"
    ensures kind != ModeSetting && defaultLimit.mode != Block ==>
      (r == InfinityGlyph <==> ConfigValue(kind, defaultLimit) in {UnlimitedValue, InfinityGlyph})
    ensures kind != ModeSetting && defaultLimit.mode != Block && ConfigValue(kind, defaultLimit) != UnlimitedValue ==>
      r == ConfigValue(kind, defaultLimit)
  {
    var value := ConfigValue(kind, defaultLimit);
    if kind == ModeSetting then
      if value == ModeValue(Block) then t("modes." + value)
      else if defaultLimit.maxHourlyRate == UnlimitedValue && defaultLimit.maxPending == UnlimitedValue then "-"
      else t("modes." + value)
    else if defaultLimit.mode == Block then "-"
    else if value == UnlimitedValue then InfinityGlyph
    else value
  }

  /** The request body of `updateDefaultLimit`. */
  datatype DefaultLimitRequest = UpdateDefaultLimit(limit: Limit)

  /** `handleSubmit`: the form's record is sent as the new default. */
  function SubmitDefault(newLimit: Limit): (r: DefaultLimitRequest)
    ensures r.limit == newLimit
  {
    UpdateDefaultLimit(newLimit)
  }

  /** The panel shows a numeric default exactly as the node table shows the
      same value for a peer whose own limit equals the default. */
  lemma PanelAgreesWithTable(row: NodeLimit, defaultLimit: Limit, kind: ConfigKind, t: Translate)
    requires kind != ModeSetting && row.limit == Some(defaultLimit)
    ensures GetString(kind, defaultLimit, t) == NodeTable.LimitNumberCell(row, ConfigValue(kind, defaultLimit), t)
  {
  }

  /** The dialog is seeded with the current default, so it opens with the
      submit button disabled, and a record it does submit is a change. */
  lemma UnchangedDefaultIsNotSubmitted(defaultLimit: Limit, st: EditLimitsForm.FormState)
    ensures var seed := Some(defaultLimit);
      EditLimitsForm.IsButtonDisabled(EditLimitsForm.Init(seed), seed)
    ensures !EditLimitsForm.IsButtonDisabled(st, Some(defaultLimit)) ==>
      SubmitDefault(EditLimitsForm.Submit(st)).limit != defaultLimit
  {
    EditLimitsForm.SeededFormStartsDisabled(defaultLimit);
  }
}
