/** The command-line client's enumerated flag value, used for `--mode`. */
module CliMain {
  import opened Wrappers
  import opened Strings

  /** A flag restricted to the strings of `values`; `selected` is empty
      until a value has been set. */
  datatype EnumValue = EnumValue(values: seq<string>, default: string, selected: string)

  const ModeFailText := "fail"
  const ModeQueueText := "queue"
  const ModeQueuePeerInitiatedText := "queue_peer_initiated"

  /** The `--mode` flag as declared, before any value is given. */
  const ModeFlag := EnumValue([ModeFailText, ModeQueueText, ModeQueuePeerInitiatedText], ModeFailText, "")

  /** `EnumValue.Set`: a listed value is selected; anything else is refused
      with the list of allowed values and the selection stays as it was. */
  function Set(e: EnumValue, value: string): (r: (EnumValue, Result<(), string>))
    ensures r.1.Ok? <==> value in e.values
    ensures r.1.Ok? ==> r.0 == e.(selected := value)
    ensures r.1.Err? ==> r.0 == e && r.1.error == "allowed values are " + Join(e.values, ", ")
  {
    if value in e.values then (e.(selected := value), Ok(()))
    else (e, Err("allowed values are " + Join(e.values, ", ")))
  }

  /** `EnumValue.String`: the selection, or the default when none is made. */
  function Show(e: EnumValue): (s: string)
    ensures e.selected != "" ==> s == e.selected
    ensures e.selected == "" ==> s == e.default
  {
    if e.selected == "" then e.default else e.selected
  }

  /** Setting the same value twice is the same as setting it once. */
  lemma SetIdempotent(e: EnumValue, value: string)
    ensures Set(Set(e, value).0, value) == Set(e, value)
  {
  }

  /** A refused value leaves what the flag shows unchanged; an accepted
      non-empty one is what it shows afterwards. */
  lemma SetThenShow(e: EnumValue, value: string)
    ensures value !in e.values ==> Show(Set(e, value).0) == Show(e)
    ensures value in e.values && value != "" ==> Show(Set(e, value).0) == value
  {
  }

  /** The flags a user can reach from `ModeFlag` by any sequence of `Set`
      calls. */
  function SetAll(e: EnumValue, values: seq<string>): (r: EnumValue)
    ensures r.values == e.values && r.default == e.default
    decreases |values|
  {
    if |values| == 0 then e else SetAll(Set(e, values[0]).0, values[1..])
  }

  /** Whatever a user types, the mode flag shows one of its three values,
      and `fail` when nothing valid was given. */
  lemma {:induction false} ModeFlagShowsAMode(values: seq<string>)
    ensures Show(SetAll(ModeFlag, values)) in ModeFlag.values
  {
    ModeFlagStaysListed(ModeFlag, values);
  }

  lemma {:induction false} ModeFlagStaysListed(e: EnumValue, values: seq<string>)
    requires e.values == ModeFlag.values && e.default == ModeFailText
    requires e.selected == "" || e.selected in e.values
    ensures var r := SetAll(e, values); r.selected == "" || r.selected in r.values
    ensures Show(SetAll(e, values)) in ModeFlag.values
    decreases |values|
  {
    if |values| > 0 {
      ModeFlagStaysListed(Set(e, values[0]).0, values[1..]);
    }
  }
}
