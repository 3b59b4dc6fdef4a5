/** The edit dialogs' life cycle around a mutation: the dialog opens on a
    button, and only a mutation that succeeds refetches the limits and
    closes it. */
module ModalMutation {

  /** Whether the dialog is open, and how many refetches were requested. */
  datatype Modal = Modal(open: bool, refetches: nat)

  const Closed := Modal(false, 0)

  function Open(m: Modal): (r: Modal)
    ensures r.open && r.refetches == m.refetches
  {
    m.(open := true)
  }

  /** `handleModalClose`, also the dialog's cancel. */
  function Close(m: Modal): (r: Modal)
    ensures !r.open && r.refetches == m.refetches
  {
    m.(open := false)
  }

  /** `onSuccess` refetches and closes; a failed mutation has no handler,
      so the dialog stays as it is. */
  function AfterMutation(m: Modal, succeeded: bool): (r: Modal)
    ensures succeeded ==> !r.open && r.refetches == m.refetches + 1
    ensures !succeeded ==> r == m
  {
    if succeeded then Close(m).(refetches := m.refetches + 1) else m
  }

  /** A mutation closed an open dialog only if it succeeded, and data is
      refetched exactly when it did. */
  lemma OnlySuccessCloses(m: Modal, succeeded: bool)
    requires m.open
    ensures !AfterMutation(m, succeeded).open <==> succeeded
    ensures AfterMutation(m, succeeded).refetches > m.refetches <==> succeeded
  {
  }
}
