# circuitbreaker, modelled in Dafny

circuitbreaker is a forwarding-rate limiter for an lnd Lightning node. It
holds every incoming HTLC at lnd's interceptor. For each peer, a
controller decides whether to resume or fail the HTLC. The decision uses
the number of HTLCs still pending, a rate limiter, and the peer's limit,
which is either a per-peer limit or the default limit. Limits live in a
small database table. A gRPC server lists limits merged with live
counters and accepts updates. A CLI formats these listings and builds
the update requests. Two web consoles show and edit the limits:

- a Next.js console with a node table, an edit form and a default-limit panel;
- an older single-page console.

This project models those parts as pure functions over immutable
datatypes. It proves what each operation promises. Each module follows
one source file or component:

| module | models |
|---|---|
| `WebTypes` | the console's records: `Limit` with string numbers, `NodeLimit` with an optional limit, the 13 column ids, sort order |
| `EditLimitsForm` | the limit edit form as a state machine, with its derived views and submit guard |
| `EditSelectedNodes`, `DefaultLimits`, `ModalMutation` | what an edit dialog sends, how it is seeded, and its open/close life cycle |
| `NodeTable`, `NodeTableSort`, `StableSort` | the node table's filter, selection, sort, pagination, column toggles and cell texts |
| `NodeAlias` | the alias label with its shortened-node-id fallback |
| `LegacyApp` | the older console's row mapping, queue-mode warning, edit routing, cell templates and poll guard |
| `PeerController` | the per-peer admission controller, one run-loop arm per event |
| `Process` | limit routing, channel and alias caches, the HTLC-event filter and the event loop's steps |
| `LimitDb` | the limit table and its read/write round trip |
| `Server` | the alias cache, the ListLimits merge and the UpdateLimit sequencing |
| `DaemonConfig`, `CliConfig` | modes, `forPeer`, and loading the YAML group configuration |
| `CliMain`, `CliUpdateLimit`, `CliListLimits` | the CLI's mode flag, update request and listing rows |
| `DaemonMain` | choosing the TLS certificate and macaroon paths |
| `Hex`, `Strings`, `Wrappers` | shared helpers: node keys in hex, decimal text, `Option` and `Result` |

How outside effects are handled:

- Nothing outside the program is modelled. The lnd RPCs, the rate
  limiter's verdict, a `resume` call that may fail, database and
  alias-lookup errors, and a listing of channels all become parameters.
- Library helpers that the program only calls become function parameters
  or small reference definitions. These are the translation `t`,
  `toLowerCase`, `filepath.Join` and path expansion.
- Go map iteration has no fixed order, so it becomes a nondeterministic
  choice inside a method.

## Model

| member | source | states |
|---|---|---|
| EditLimitsForm.Init | web/src/components/EditLimitsForm/EditLimitsForm.tsx:35-48 | Without a seed, both fields are empty and the mode is Fail. With a seed, the held record is exactly the seed. Each unlimited flag is set iff its seeded field is "0". Use-default starts off. |
| EditLimitsForm.UseDefaultValuesToggled | web/src/components/EditLimitsForm/EditLimitsForm.tsx:50-66 | Turning use-default on makes the held record equal the default. It raises a flag when the default field is "0" and otherwise keeps the flag as it was, so it never clears one. Turning it off empties both fields, clears both flags and sets Fail. |
| EditLimitsForm.UseDefaultValuesToggledFixed | web/src/components/EditLimitsForm/EditLimitsForm.tsx:50-66 | Corrected toggle: when on, each flag is set iff the copied default field is "0". When off, it behaves like the original. |
| EditLimitsForm.ModeChanged | web/src/components/EditLimitsForm/EditLimitsForm.tsx:87-101 | Any mode other than Block changes only the mode. Block fills only the empty fields from the default and raises a field's flag when that default is "0". Non-empty fields and their flags are untouched. |
| EditLimitsForm.Step | web/src/components/EditLimitsForm/EditLimitsForm.tsx:153-215 | Checking an unlimited box sets its field to "0" and unchecking empties it. Typing "0" raises that field's flag. Other typing only stores the text. The other field never changes. |
| EditLimitsForm.StepFixed | web/src/components/EditLimitsForm/EditLimitsForm.tsx:50-66 | The form with the corrected use-default toggle; every other event behaves as in Step. |
| EditLimitsForm.MaskedLimit | web/src/components/EditLimitsForm/EditLimitsForm.tsx:103-106 | In Block mode the box shows "0". A stored "0" shows the glyph the source literally contains, and any other value is shown raw. |
| EditLimitsForm.MaskedLimitFixed | web/src/components/EditLimitsForm/EditLimitsForm.tsx:103-106 | Corrected masking: a stored "0" outside Block shows the infinity sign. Otherwise it agrees with MaskedLimit. |
| EditLimitsForm.MaskedInfinityIsMisencoded | web/src/components/EditLimitsForm/EditLimitsForm.tsx:105 | The glyph shown for an unlimited field is three characters long, not the one-character infinity sign; the corrected masking shows the sign. |
| EditLimitsForm.SelectValueOf | web/src/components/EditLimitsForm/EditLimitsForm.tsx:108-111 | The select shows allow-all iff the mode is not Block and both flags are set. Otherwise it shows the mode. |
| EditLimitsForm.IsButtonDisabled | web/src/components/EditLimitsForm/EditLimitsForm.tsx:78-85 | Submit is disabled iff a field is empty, or the held record equals the seed. "0" counts as filled. |
| EditLimitsForm.Submit | web/src/components/EditLimitsForm/EditLimitsForm.tsx:68-71 | The emitted record is the held rate, pending and mode, unmasked. |
| EditLimitsForm.InitFlagsAgree | web/src/components/EditLimitsForm/EditLimitsForm.tsx:35-48 | A freshly seeded form has each flag set iff its field is "0". |
| EditLimitsForm.StepKeepsUnlimitedFieldsFlagged | web/src/components/EditLimitsForm/EditLimitsForm.tsx:50-215 | Every event, use-default included, keeps "a field holding "0" has its unlimited flag set". The stale-flag bug is the other direction. |
| EditLimitsForm.EventsKeepUnlimitedFieldsFlagged | web/src/components/EditLimitsForm/EditLimitsForm.tsx:35-215 | After any sequence of events from a freshly seeded form, every field holding "0" has its unlimited flag set. |
| EditLimitsForm.UseDefaultLeavesStaleFlag | web/src/components/EditLimitsForm/EditLimitsForm.tsx:50-66 | A form seeded with 0/0 has flags that agree with its fields. Turning use-default on with a 10/5 Queue default is an enabled step. Afterwards the flags disagree with the fields, and the select shows allow-all instead of Queue. |
| EditLimitsForm.StepFixedKeepsFlagsAgree | web/src/components/EditLimitsForm/EditLimitsForm.tsx:50-66 | With the corrected toggle, every enabled event keeps "flag set iff field is "0"". |
| EditLimitsForm.SelectValueMeansUnlimited | web/src/components/EditLimitsForm/EditLimitsForm.tsx:108-111 | When flags agree with fields, allow-all is shown iff the mode is not Block and both fields are "0". |
| EditLimitsForm.UnlimitedRoundTrip | web/src/components/EditLimitsForm/EditLimitsForm.tsx:171-176 | Checking the rate's unlimited box stores "0". The box then shows the mis-encoded glyph as written, and the infinity sign once corrected. Unchecking it again empties the field, which shows nothing and disables submit. The pending field and the mode are kept. |
| EditLimitsForm.BlockMasksDisplayNotSubmission | web/src/components/EditLimitsForm/EditLimitsForm.tsx:68-106 | In Block mode both boxes display "0" while the submitted record keeps the held values. |
| EditLimitsForm.BlockAndBackKeepsValues | web/src/components/EditLimitsForm/EditLimitsForm.tsx:87-101 | Choosing Block on a filled form and then another mode restores the record with only the mode changed. |
| EditLimitsForm.BlockFromEmptyFormIsComplete | web/src/components/EditLimitsForm/EditLimitsForm.tsx:87-101 | Choosing Block on an empty form fills both fields from the default, so the form becomes submittable. |
| EditLimitsForm.SeededFormStartsDisabled | web/src/components/EditLimitsForm/EditLimitsForm.tsx:78-85 | A form opened on a seed, or opened empty, cannot be submitted before it changes. |
| EditLimitsForm.ChangedCompleteRecordIsSubmittable | web/src/components/EditLimitsForm/EditLimitsForm.tsx:78-85 | Two filled fields holding a record different from the seed enable submit. |
| EditSelectedNodes.Spread | web/src/views/Home/parts/EditSelectedNodes.tsx:39-45 | The reduced object's keys are exactly the selected ids, and each maps to the new limit. |
| EditSelectedNodes.UpdateSelected | web/src/views/Home/parts/EditSelectedNodes.tsx:33-50 | A limit equal to the default becomes a clear request for exactly the selection. Any other limit becomes one update whose keys are exactly the selection, each mapped to that limit. |
| EditSelectedNodes.Apply | web/src/views/Home/parts/EditSelectedNodes.tsx:36-48 | A clear request removes the listed peers' own limits. An update adds or replaces exactly the given keys. |
| EditSelectedNodes.SubmittedLimitTakesEffect | web/src/views/Home/parts/EditSelectedNodes.tsx:33-50 | Whichever request is sent, afterwards every selected peer is governed by the submitted limit and every other peer is unchanged. |
| EditSelectedNodes.FindNode | web/src/views/Home/parts/EditSelectedNodes.tsx:67 | The result is None iff no record has the id. Otherwise it is the first record with that id. |
| EditSelectedNodes.FindListedNode | web/src/views/Home/parts/EditSelectedNodes.tsx:67 | In a listing without repeated ids, looking up a listed peer's id finds that peer's record. |
| EditSelectedNodes.SeedLimit | web/src/views/Home/parts/EditSelectedNodes.tsx:64-71 | The form is seeded with a peer's own limit only when exactly one peer is selected and found. Otherwise it gets no seed. |
| EditSelectedNodes.EditButtonDisabled | web/src/views/Home/parts/EditSelectedNodes.tsx:31 | The edit button is disabled iff nothing is selected. |
| EditSelectedNodes.SinglePeerDialogStartsUnchanged | web/src/views/Home/parts/EditSelectedNodes.tsx:64-71 | For one selected peer with its own limit, wherever that peer is listed, the dialog opens enabled, seeded with that limit, and cannot be submitted before it changes. |
| ModalMutation.Open | web/src/views/Home/parts/EditSelectedNodes.tsx:76 | Opening shows the dialog and requests no refetch. |
| ModalMutation.Close | web/src/views/Home/parts/EditSelectedNodes.tsx:30 | Closing hides the dialog and requests no refetch. |
| ModalMutation.AfterMutation | web/src/views/Home/parts/EditSelectedNodes.tsx:52-58 | A successful mutation refetches once and closes the dialog. A failed one changes nothing. |
| ModalMutation.OnlySuccessCloses | web/src/views/Home/parts/DefaultLimits.tsx:67-73 | An open dialog is closed by a mutation iff it succeeded, and a refetch happens iff it succeeded. |
| DefaultLimits.GetString | web/src/views/Home/parts/DefaultLimits.tsx:24-34 | Mode box: Block shows the translated Block. Otherwise both defaults "0" show "-", and anything else shows the translated mode. Number boxes: a Block default shows "-", "0" shows the infinity sign, and other values are shown raw. |
| DefaultLimits.SubmitDefault | web/src/views/Home/parts/DefaultLimits.tsx:75-77 | The request wraps the form's limit unchanged. |
| DefaultLimits.PanelAgreesWithTable | web/src/views/Home/parts/DefaultLimits.tsx:31-33 | A numeric default is shown the same way as the node table shows that value for a peer whose own limit equals the default. |
| DefaultLimits.UnchangedDefaultIsNotSubmitted | web/src/views/Home/parts/DefaultLimits.tsx:131-135 | Seeded with the current default, the dialog opens disabled. Any record it does submit differs from the default. |
| NodeAlias.ShortNodeId | web/src/components/NodeAlias/NodeAlias.tsx:8 | For a 66-character id the label has 19 characters: the first 8, "...", and the last 8. An id of at most 8 characters gets "..." appended. |
| NodeAlias.Label | web/src/components/NodeAlias/NodeAlias.tsx:6-10 | A non-empty alias is shown as is. An empty or absent alias gives the shortened node id. |
| NodeAlias.LabelIgnoresOtherFields | web/src/components/NodeAlias/NodeAlias.tsx:6-10 | The label depends only on the alias and the node id. |
| NodeTable.KeepMatching | web/src/views/Home/parts/NodeTable.tsx:278-280 | The kept rows are exactly the rows whose lower-cased alias contains the lower-cased search text. |
| NodeTable.FilterByAlias | web/src/views/Home/parts/NodeTable.tsx:277-281 | An empty search keeps every row in order. Otherwise the kept rows are exactly the matching ones. |
| NodeTable.FilterKeepsOrder | web/src/views/Home/parts/NodeTable.tsx:277-281 | Filtering distributes over concatenation, so kept rows stay in their original order. |
| NodeTable.IndexOf | web/src/views/Home/parts/NodeTable.tsx:290 | The result is -1 iff the id is absent. Otherwise it is the first index holding the id. |
| NodeTable.Toggle | web/src/views/Home/parts/NodeTable.tsx:289-307 | An absent id is appended at the end. A present id is removed, leaving one fewer entry. |
| NodeTable.ToggleCutsAt | web/src/views/Home/parts/NodeTable.tsx:295-304 | Removing cuts out exactly the entry at the id's first index, in each of the three slice cases. |
| NodeTable.ToggleMeaning | web/src/views/Home/parts/NodeTable.tsx:289-307 | On a selection without duplicates, a click flips exactly the clicked id's membership, keeps the others in order and creates no duplicates. |
| NodeTable.ToggleTwiceRestores | web/src/views/Home/parts/NodeTable.tsx:289-307 | Clicking an unselected row twice restores the selection. |
| NodeTable.SelectAll | web/src/views/Home/parts/NodeTable.tsx:309-316 | Checking selects the filtered ids in filtered order. Unchecking selects nothing. |
| NodeTable.HeaderCheckbox | web/src/views/Home/parts/NodeTable.tsx:401-406 | The box is indeterminate iff 0 < selected < filtered. It is checked iff filtered > 0 and selected = filtered. It is never both. |
| NodeTable.SelectAllThenHeader | web/src/views/Home/parts/NodeTable.tsx:309-316 | Right after select-all the box is checked when any rows are filtered; right after deselect it is neither checked nor indeterminate. |
| NodeTable.PageRows | web/src/views/Home/parts/NodeTable.tsx:467-468 | A page holds at most rows-per-page rows, all from the sorted list. It is full when the list reaches past it and empty when the list ends before it. |
| NodeTable.RowOnItsPage | web/src/views/Home/parts/NodeTable.tsx:467-468 | Row i of the sorted list appears on page i / rpp at position i % rpp. |
| NodeTable.InitialColumns | web/src/views/Home/parts/NodeTable.tsx:220-236 | Every one of the 13 columns starts visible. |
| NodeTable.InitialTable | web/src/views/Home/parts/NodeTable.tsx:214-236 | The table starts on page 0 with 25 rows per page, no selection, no search, sorted ascending by alias, all columns shown. |
| NodeTable.NextOrder | web/src/views/Home/parts/NodeTable.tsx:329-333 | A sort request gives descending iff the same column is already sorted ascending. |
| NodeTable.TableStep | web/src/views/Home/parts/NodeTable.tsx:277-367 | A search change resets the page and the selection. A rows-per-page change resets the page. A sort request sets the column and the next order. A column toggle flips exactly that column. A row click toggles the row. Select-all takes the rows the last render listed: the rows matching the search (all of them when there is none), sorted by the current key, since that render sorted them in place. No event changes anything else. |
| NodeTable.SortRequestedTwice | web/src/views/Home/parts/NodeTable.tsx:329-333 | Requesting the ascending column twice sorts it descending, then ascending again. |
| NodeTable.ColumnToggledTwice | web/src/views/Home/parts/NodeTable.tsx:285-287 | Toggling a known column twice restores the table state. |
| NodeTable.VisibleRows | web/src/views/Home/parts/NodeTable.tsx:467-468 | At most rows-per-page rows are shown. All of them come from the fetched array, and under a search all of them match it. |
| NodeTable.RenderKeepsDisplay | web/src/views/Home/parts/NodeTable.tsx:277-281 | Re-rendering after a render has sorted the fetched array in place shows exactly the same rows. |
| NodeTable.SelectAllFollowsDisplay | web/src/views/Home/parts/NodeTable.tsx:309-316 | Under any search, select-all selects every peer the table lists and no other, in the order it lists them across its pages (line 467 sorts the same `limits` array in place), and the visible page is a slice of that order. |
| NodeTable.SearchShowsFirstPage | web/src/views/Home/parts/NodeTable.tsx:363-367 | After a search change the table shows page 0 with nothing selected. |
| NodeTable.DefaultCellFormat | web/src/views/Home/parts/NodeTable.tsx:44-45 | The cell shows "-" iff the value is "0" or "-" itself. Any value other than "0" is shown as is. |
| NodeTable.LimitNumberCell | web/src/views/Home/parts/NodeTable.tsx:101-120 | No own limit shows the translated default. Block shows "-", "0" shows the infinity sign, and other values are shown raw. |
| NodeTable.LimitModeCell | web/src/views/Home/parts/NodeTable.tsx:121-134 | No own limit shows the translated default. Block shows translated Block. Both fields "0" show "-". Otherwise the translated mode is shown. |
| NodeTable.CellText | web/src/views/Home/parts/NodeTable.tsx:50-135 | The alias column shows the alias label. A count column shows "-" iff the count is 0, and otherwise its decimal text. A limit column of a peer without its own limit shows the translated default. With a limit, the rate and pending columns use the number format on their field, and the mode column uses the mode format. |
| NodeTable.ShownColumns | web/src/views/Home/parts/NodeTable.tsx:492-507 | Exactly the listed columns that are switched on are rendered. Any two of them appear in the same relative order as in the column list. |
| NodeTable.RowCells | web/src/views/Home/parts/NodeTable.tsx:492-507 | A row has one cell per shown column, each the formatted value of that column. |
| NodeTable.InitialRowHasTwelveCells | web/src/views/Home/parts/NodeTable.tsx:50-135 | With every column on, a row renders the twelve formatted columns. |
| NodeTableSort.Get | web/src/views/Home/parts/NodeTable.tsx:143-144 | Only a limit column of a peer without its own limit is missing. A count column holds decimal text that reads back as the count. |
| NodeTableSort.SortValue | web/src/views/Home/parts/NodeTable.tsx:143-144 | A limit column of a peer without its own limit reads as "Default". Every other column reads the record's field. |
| NodeTableSort.DefaultIsNotNumber | web/src/views/Home/parts/NodeTable.tsx:143-147 | The "Default" sort value of a peer without its own limit never reads as a number. |
| Strings.ParseLeadingNat | web/src/views/Home/parts/NodeTable.tsx:146-147 | A value reads as a number iff its text starts with a digit. |
| NodeTableSort.CompareValues | web/src/views/Home/parts/NodeTable.tsx:149-159 | Two numbers compare by difference. A number sorts before a non-number. Two non-numbers compare as text. |
| NodeTableSort.RowCompare | web/src/views/Home/parts/NodeTable.tsx:142-162 | The comparison is on the column's values, negated for descending order. |
| NodeTableSort.CompareAntisymmetric | web/src/views/Home/parts/NodeTable.tsx:149-159 | Swapping the two values negates the comparison. |
| NodeTableSort.CompareTransitive | web/src/views/Home/parts/NodeTable.tsx:149-159 | "Sorts no later than" is transitive. |
| NodeTableSort.RowOrderIsPreorder | web/src/views/Home/parts/NodeTable.tsx:142-162 | The comparator handed to the sort is a total preorder in both directions. |
| NodeTableSort.SortRows | web/src/views/Home/parts/NodeTable.tsx:137-163 | The result is a permutation of the rows, ordered by the comparator, and rows that tie keep their relative order. |
| NodeTableSort.NumbersAscendFirst | web/src/views/Home/parts/NodeTable.tsx:146-156 | Sorted ascending, numeric values come in numeric order and before every non-numeric value. |
| NodeTableSort.DefaultRowsAfterNumbers | web/src/views/Home/parts/NodeTable.tsx:143-156 | Sorted ascending on a limit column, a peer without its own limit comes after every numeric value. |
| NodeTableSort.CountsAscend | web/src/views/Home/parts/NodeTable.tsx:146-151 | Sorted ascending on a count column, rows come in order of that count. |
| NodeTableSort.SortRowsIdempotent | web/src/views/Home/parts/NodeTable.tsx:142 | Sorting rows that are already sorted by the same key and direction changes nothing. |
| StableSort.Sort | web/src/views/Home/parts/NodeTable.tsx:142 | Sorting returns a permutation ordered by any total preorder. |
| StableSort.SortStable | web/src/views/Home/parts/NodeTable.tsx:142 | Elements that tie with each other appear in the same relative order before and after sorting. |
| StableSort.InsertAfterAll | web/src/views/Home/parts/NodeTable.tsx:142 | Inserting an element that sorts no earlier than every element present appends it. |
| StableSort.SortOrderedIsIdentity | web/src/views/Home/parts/NodeTable.tsx:142 | Sorting a sequence that is already ordered returns it unchanged. |
| StableSort.SortIdempotent | web/src/views/Home/parts/NodeTable.tsx:142 | Sorting twice gives the same as sorting once. |
| LegacyApp.ToRow | webui/src/App.js:41-76 | A peer without a limit gets MODE_DEFAULT and zero caps. Otherwise the three limit fields are copied. An empty alias becomes the shortened node id. Counters, queue length and pending count are copied. |
| LegacyApp.AnyPeerWarns | webui/src/App.js:60-68 | Some peer warns iff one of them has its own queue or queue-peer-initiated limit. |
| LegacyApp.FetchData | webui/src/App.js:32-95 | There is one row per listed peer, in order, and the default table holds just the default limit. The warning is raised iff a peer's limit or the default limit queues. |
| LegacyApp.RowEditRequest | webui/src/App.js:150-187 | Saving a row with MODE_DEFAULT posts clearlimit for that node. Any other mode posts updatelimit with exactly the three fields. |
| LegacyApp.DefaultEditRequest | webui/src/App.js:126-148 | Saving the default row posts updatedefaultlimit with exactly the edited fields. |
| LegacyApp.UneditedSaveRepostsLimit | webui/src/App.js:41-187 | Saving an unedited row reposts the peer's limit, or clears it when the peer had none. |
| LegacyApp.ModeLabel | webui/src/App.js:208-229 | The four known modes get their labels. Everything else, and only that, shows "NA". |
| LegacyApp.EditorChoicesDisplayAsOffered | webui/src/App.js:189-206 | Every option the mode editor offers is displayed with the label it was offered under. |
| LegacyApp.NumberBody | webui/src/App.js:231-239 | MODE_DEFAULT shows "Use default". Otherwise 0 shows "None" and other numbers are shown in decimal. |
| LegacyApp.DashNumberBody | webui/src/App.js:241-245 | 0 shows "-". Other numbers are shown in decimal. |
| LegacyApp.PlaceholdersMeanZero | webui/src/App.js:231-245 | "None" and "-" are shown only for 0. |
| LegacyApp.EditStep | webui/src/App.js:284-292 | Starting a row edit raises that table's editing flag. Saving or cancelling lowers it. The other table's flag is untouched. |
| LegacyApp.PollFetches | webui/src/App.js:100-108 | A scheduled poll fetches iff neither table is being edited. |
| LegacyApp.EditPausesPolling | webui/src/App.js:100-108 | Polling stops while a row is being edited. It resumes after a save or cancel when the other table is not being edited. |
| PeerController.Incr | peer_controller.go:35-49 | Exactly the counter of the given event grows by one. |
| PeerController.IncrCounter | peer_controller.go:281-285 | Every interval's counter is incremented for the event. |
| PeerController.NewCtrl | peer_controller.go:82-114 | A new controller holds the given limit and pending set and two zeroed counters. |
| PeerController.Step | peer_controller.go:165-273 | The cases are: a replayed intercept changes nothing and sends nothing; an intercept that is allowed and under the pending cap is added and resumed; any other intercept is failed, and rejects are counted only if the failure was sent; a resolve for an unknown key changes nothing; a known key is removed and counted as success or fail; a limit update replaces the limit. A failed send stops the controller. |
| PeerController.Forward | peer_controller.go:295-307 | The key is added to the pending set before the resume is sent, so it stays added even when the send fails. |
| PeerController.PendingCapHolds | peer_controller.go:148-149 | Under a non-zero cap, no intercept or resolve takes the pending set above the cap. The admission test at those lines is `PeerController.NewHtlcAllowed`: no cap, or fewer pending HTLCs than the cap. |
| PeerController.PeerInitiatedIgnored | peer_controller.go:178-188 | The peer-initiated flag never affects the outcome, because the mode is fixed to Fail. |
| PeerController.ConfiguredModeIgnored | peer_controller.go:178-179 | Changing the configured mode changes no outcome of an intercept or resolve. |
| PeerController.ForwardThenResolve | peer_controller.go:220-264 | An HTLC that is forwarded and then resolved leaves the pending set as it was. Exactly one success or fail is counted in each interval. |
| PeerController.RejectCountedOnlyWhenSent | peer_controller.go:190-217 | A refused intercept counts a reject iff the failure was delivered. |
| PeerController.GetRate | peer_controller.go:287-293 | The rate is unlimited iff the hourly rate is 0. Otherwise it is that many tokens per hour. |
| Process.GetNodeAlias | process.go:389-406 | A cached alias is returned. A successful lookup is cached and returned. A failed lookup returns "" and caches nothing. |
| Process.CachedAliasIgnoresNode | process.go:390-393 | On a cache hit the lookup's answer does not matter. |
| Process.CreatePeerController | process.go:177-201 | The peer gets a fresh controller with its routed limit and the given pending set. Other controllers and the limits are unchanged, and config coherence is kept. The peer's alias is cached iff it was cached or the node answers for that peer, with that answer; other peers' cache entries are untouched. |
| Process.GetPeerController | process.go:163-175 | An existing controller leaves the state unchanged. Otherwise one with an empty pending set is registered and the peer's alias is looked up. No other peer's alias entry changes. |
| Process.GetPeerControllerIdempotent | process.go:163-175 | Asking twice for the same peer's controller is the same as asking once. |
| Process.GetChanInfo | process.go:408-433 | A cached channel is returned without a listing. On a miss, a listing error is returned. Otherwise the listing is merged into the cache, and the channel or "incoming channel N not found" is returned. |
| Process.ChanCacheHitIgnoresNode | process.go:408-433 | The cache only grows. On a hit the listing does not matter. |
| Process.ApplyLimitUpdate | process.go:272-299 | A default update sets the default and pushes it only to controllers of peers without their own limit. A per-peer update sets that peer's limit and pushes it only to its controller. No controller is created. |
| Process.UpdateKeepsCoherent | process.go:272-299 | After an update every controller still runs with the limit routed to its peer. |
| Process.DefaultSparesPerPeer | process.go:276-281 | A default update changes neither the limit nor the controller of a peer with its own limit. |
| Process.ResolveKey | process.go:321-338 | Only forward events carrying settle, forward-fail or link-fail become resolutions, keyed by the incoming channel and HTLC. The resolution is settled iff the event was a settle. |
| Process.ResumeResponse | process.go:360-374 | resume(true) answers RESUME and resume(false) answers FAIL, for the same circuit key. |
| Process.Deliver | process.go:246-266 | Handing an event to an existing controller keeps the set of controllers and the limits. It keeps coherence and asks for no write. |
| Process.LoopStep | process.go:238-304 | An update is applied and then persisted; a store error ends the loop. Intercepts and resolves find the channel, then the peer's controller, then deliver, replying only for the intercepted key. Limits are unchanged and coherence is kept. |
| Process.InterceptCarriesOpener | process.go:240-254 | An intercept on a cached channel reaches that channel's peer, marked peer-initiated iff the local node did not open the channel. |
| Process.GroupByPeer | process.go:216-231 | Start-up grouping fails iff some pending HTLC's channel is unknown. Otherwise every HTLC lands in its channel peer's set, and only there. |
| Process.StartControllers | process.go:233-236 | Every peer with pending HTLCs gets a fresh controller seeded with exactly those HTLCs. Other controllers and the limits are unchanged. Each of those peers' aliases is looked up with the node's answer for that peer; other peers' cache entries are untouched. |
| LimitDb.UpdateLimit | db.go:50-73 | Both caps 0 deletes the peer's row. Otherwise the row is replaced with the caps. Rows of other peers are unchanged. |
| LimitDb.GetLimits | db.go:75-108 | Reading fails iff some row's key does not decode to a node key. Every entry comes from a row, and its mode is always Fail. |
| LimitDb.CanonicalInjective | db.go:53 | Two keys in the daemon's hex form that decode to the same node are the same key. |
| LimitDb.ReadCanonicalRows | db.go:87-105 | Rows with distinct hex keys read back one entry per row, each holding that row's caps. |
| LimitDb.ReadBack | db.go:75-108 | Reading a table the daemon wrote gives an entry for a peer iff its row exists, with that row's caps. |
| LimitDb.UpdateKeepsCanonical | db.go:53 | Writing keeps every key in the hex form the daemon writes. |
| LimitDb.UpdateThenRead | db.go:50-108 | After a write, a zero limit reads back as absent. Any other limit reads back with its caps and mode Fail. |
| Hex.HexRoundTrip | db.go:53 | Decoding the hex text of any byte string gives the bytes back. |
| Hex.VertexFromStr | db.go:99-102 | Parsing a node key succeeds iff the text is hex for exactly 33 bytes. Text that is not 66 characters long is a length error, checked before any decoding. |
| Hex.VertexRoundTrip | db.go:99-102 | A node key written as hex parses back to itself. |
| Server.GetAlias | server.go:37-57 | A cached alias is returned. A not-found node is cached and returned as "". A found alias is cached and returned. Any other failure is returned and not cached. |
| Server.GetAliasCaches | server.go:41-44 | Once a lookup succeeds, later calls return the same alias whatever the node answers. |
| Server.MakeRow | server.go:126-141 | A row names the peer in hex and carries its alias. Its limit has the stored caps or zeros, its mode is zero, and it has the peer's counters or zeros. |
| Server.AppendRows | server.go:143-170 | Appending rows fails only if an uncached peer's alias lookup fails. Otherwise each peer gets one correct row, in addition to the rows already there. |
| Server.ListLimits | server.go:102-175 | The listing fails iff some uncached peer's alias lookup fails. Otherwise it holds exactly one row per peer that has a stored limit or counters, and each row is correct. |
| Server.UpdateLimitRpc | server.go:73-100 | A bad node key fails first. Then a store failure aborts before the process is told. Otherwise the store is written and the process gets the limit with mode Fail. |
| Server.UpdateRpcThenRead | server.go:73-100 | After a successful non-zero update, reading the store gives the peer the sent caps with mode Fail. |
| DaemonConfig.ModeString | config.go:17-31 | The three modes are named fail, queue and queue_peer_initiated. Any other value is the panic "unknown mode". |
| DaemonConfig.ModeStringInjective | config.go:17-31 | Different modes have different names. |
| DaemonConfig.Routed | config.go:48-55 | A peer's own entry is returned when present, else the fallback. `DaemonConfig.ForPeer` (`forPeer`, config.go:48-55) and `Process.LimitFor` (the limit a new controller starts with, process.go:180-183) are its two instances. |
| DaemonConfig.OverrideIsLocal | config.go:48-55 | Giving one peer settings changes only what that peer gets. |
| CliConfig.ParseMode | cmd/circuitbreaker/config.go:66-79 | "" and "fail" give Fail, "queue" gives Queue, and "queue_peer_initiated" gives QueuePeerInitiated. Anything else is an unknown-mode error. |
| CliConfig.ModeNamesRoundTrip | cmd/circuitbreaker/config.go:66-79 | Parsing a mode's name gives the mode, and naming a parsed mode gives the text. |
| CliConfig.ParseGroupConfig | cmd/circuitbreaker/config.go:60-87 | A burst of 0 becomes 1 and other bursts are kept. Pending and interval are copied. A bad mode is the error. |
| CliConfig.GroupEntries | cmd/circuitbreaker/config.go:100 | A group contributes one entry per listed peer, each with the group's settings. |
| CliConfig.EmptyGroupContributesNothing | cmd/circuitbreaker/config.go:99-100 | A group without peers adds no entries. |
| CliConfig.AddPeers | cmd/circuitbreaker/config.go:99-119 | Adding peers succeeds iff every key parses, no key repeats or is already present, and every group's settings parse. On success each peer maps to its group's settings and earlier entries are kept. |
| CliConfig.AddPeersStep | cmd/circuitbreaker/config.go:99-119 | Accepting a list is the same as accepting its first peer and then the rest. |
| CliConfig.Load | cmd/circuitbreaker/config.go:89-119 | Bad global settings are the error. Otherwise loading succeeds iff the peer list is acceptable. The global settings are the parsed ones and each peer gets its group's settings. |
| CliConfig.DuplicatePeerRefused | cmd/circuitbreaker/config.go:106-110 | A peer listed twice, in any groups, makes loading fail. |
| CliConfig.EmptyGroupNotValidated | cmd/circuitbreaker/config.go:99-118 | Adding a group with no peers, whatever its settings, does not change the result of loading. |
| CliConfig.ListedPeerGetsGroupSettings | cmd/circuitbreaker/config.go:99-119 | After a successful load, every listed peer gets its group's parsed settings. |
| CliConfig.EntryIndexExists | cmd/circuitbreaker/config.go:99-100 | Every listed peer appears among the flattened entries with its group's settings. |
| CliMain.Set | cmd/circuitbreaker/main.go:26-35 | Set succeeds and stores the value iff it is one of the allowed values. Otherwise the flag is unchanged and the error lists the values joined by ", ". |
| CliMain.Show | cmd/circuitbreaker/main.go:37-42 | The default is shown when nothing is selected. Otherwise the selection is shown. |
| CliMain.SetIdempotent | cmd/circuitbreaker/main.go:26-35 | Setting the same value twice is the same as setting it once. |
| CliMain.SetThenShow | cmd/circuitbreaker/main.go:26-42 | A rejected value leaves what is shown unchanged. An accepted value is then shown. |
| CliMain.SetAll | cmd/circuitbreaker/main.go:26-35 | Any sequence of sets keeps the allowed values and the default. |
| CliMain.ModeFlagShowsAMode | cmd/circuitbreaker/main.go:60-71 | After any sequence of sets, the mode flag shows one of the three mode names. |
| CliMain.ModeFlagStaysListed | cmd/circuitbreaker/main.go:60-71 | A mode flag whose selection is empty or allowed stays that way under any sequence of sets. |
| CliUpdateLimit.CliModeToRpc | cmd/circuitbreaker/cmd_updatelimit.go:20-35 | The three mode names map to the three RPC modes. Anything else is "unknown mode". |
| CliUpdateLimit.UpdateLimitCommand | cmd/circuitbreaker/cmd_updatelimit.go:11-49 | A client error comes first, then an unknown mode. Otherwise the request carries the node, rate and pending verbatim with the mapped mode. |
| CliUpdateLimit.ModeFlagAlwaysMaps | cmd/circuitbreaker/cmd_updatelimit.go:22-35 | Whatever sets were applied to the mode flag, the command builds a request. |
| CliListLimits.FormatNumber | cmd/circuitbreaker/cmd_listlimits.go:45-52 | "-" is shown iff the number is 0. Positive numbers read back as themselves, and negative numbers as a minus sign followed by their magnitude. |
| CliListLimits.RpcModeToCli | cmd/circuitbreaker/cmd_listlimits.go:57-70 | The three RPC modes map to their CLI names. Anything else is "unknown mode". |
| CliListLimits.ModeNamesRoundTrip | cmd/circuitbreaker/cmd_listlimits.go:57-70 | Mapping a mode to its name and back gives the mode again, in both directions. |
| CliListLimits.FormatCounterInjective | cmd/circuitbreaker/cmd_listlimits.go:74-76 | Different counters render as different "success / fail / reject" texts. |
| CliListLimits.LimitRow | cmd/circuitbreaker/cmd_listlimits.go:40-84 | A row has 7 cells in header order: node, alias, rate, pending, mode, 1 h counter, 24 h counter. An unknown mode is an error. |
| CliListLimits.ListRows | cmd/circuitbreaker/cmd_listlimits.go:40-84 | The listing fails iff some row has an unknown mode. Otherwise it has one row per limit, in order. |
| CliListLimits.DaemonListingsRender | cmd/circuitbreaker/cmd_listlimits.go:57-70 | A listing whose modes are all zero, as the daemon sends them, renders with every mode shown as "fail". |
| DaemonMain.CleanAndExpandPath | main.go:146-167 | The empty path stays empty. Any other path is expanded and cleaned. |
| DaemonMain.ExtractPathArgs | main.go:45-86 | Only mainnet, testnet, regtest and simnet are accepted, after lower-casing. A given macaroon path is used after cleaning. Otherwise the macaroon path is lnddir/data/chain/bitcoin/network/admin.macaroon. The TLS path is lnddir/tls.cert iff lnddir differs from the default. |
| DaemonMain.NetworkCaseIgnored | main.go:46-51 | Two network flags that lower-case alike give the same result. |
| DaemonMain.OverridesIgnoreOtherFlags | main.go:61-83 | A custom lnddir fixes the TLS path whatever TLS path was given. A given macaroon path fixes the macaroon path whatever lnddir was given. |

## Left out

- Rendering, styling, icons, tooltips, i18n resources and the HTTP/gRPC
  transport are not modelled. The translation lookup is a function
  parameter.
- Concurrency is not modelled: goroutines, channels, `select`, `errgroup`,
  context cancellation and the server's mutex. Each `select` arm is one
  sequential step, and a send on a channel is assumed to succeed.
- The token bucket (`x/time/rate`) and the decaying rate counters are not
  modelled. The limiter's verdict is a boolean parameter. The counters are
  plain event counts that never decay. The float division in `getRate` is
  kept only as "tokens per hour".
- The queue and its delay arm in the peer controller are not modelled.
  The mode is fixed to Fail, so nothing is ever queued and that arm cannot
  run.
- `Strings.ParseLeadingNat`: `parseFloat` is modelled only for unsigned
  integer prefixes. Leading whitespace, signs, decimals, exponents and
  "Infinity" are not read.
- `NodeTableSort.CompareValues`: `localeCompare` is modelled as ordinal,
  character-by-character comparison.
- `WebTypes.Counter`: counters are declared as numbers but arrive as
  decimal strings in JSON. They are modelled as naturals, and the table
  reads each as its decimal text (`NodeTableSort.Get`).
- `Strings.Slice` and `NodeAlias.ShortNodeId`: JavaScript's `slice` is
  modelled only for non-negative arguments, which are the only ones the
  source passes.
- `EditLimitsForm.IsButtonDisabled`: the falsy-mode test is dropped. The
  mode is a closed datatype here, so it can never be empty.
- `LegacyApp.ToRow`: `null` and an absent limit are treated alike, and the
  loose `==` comparisons are modelled as strict ones on the same types.
- The web console's `Mode` enum file is not part of this model. Its string
  values are taken to be `MODE_FAIL`, `MODE_BLOCK`, `MODE_QUEUE` and
  `MODE_QUEUE_PEER_INITIATED`, like those the older console uses.
- The RPC mode numbers are taken to be MODE_FAIL = 0, MODE_QUEUE = 1 and
  MODE_QUEUE_PEER_INITIATED = 2. The generated protobuf code is not part
  of this model.
- Reading files, YAML unmarshalling, SQL, `os.ExpandEnv`, user lookup and
  `filepath.Join`/`Clean` are parameters, not definitions.
- The Go files come from different revisions that do not fit together:
  - process.go reads a global limit that db.go's `Limits` does not have;
    `Process.ProcessLimits` adds that field.
  - process.go persists through `SetLimit`, which db.go does not define;
    the write is a store-error parameter of `Process.LoopStep`.
  - process.go hands the peer controller a bare circuit key where a
    settled/failed resolution is expected; `Process.ResolveKey` carries
    the settled flag from the event kind.
  - server.go calls `getRateCounters`, which process.go does not define;
    `Server.ListLimits` takes the counters as an input.
- `Process.GroupByPeer`: the channels of the pending HTLCs are looked up in
  a channel map that is already filled. The cache refill of the start-up
  lookups is not repeated there.
- lnd's `route.NewVertexFromStr` is not part of this model.
  `Hex.VertexFromStr` follows its order: the text length is checked
  before the text is decoded, and only the error messages are simplified.
- The `channel` record (peer and initiator) is not part of this model. It
  is modelled as those two fields.
- `Server.ListLimits` requires every counter entry to hold the two
  intervals the peer controller keeps. The source indexes entries 0 and 1
  and relies on that.
- `DaemonMain.CleanAndExpandPath`: the home-directory and environment
  expansion and the cleaning are a single function parameter.
- The data-fetching hooks and axios wrappers are not modelled. Only their
  success or failure is, through `ModalMutation`.

## Findings

| source | as written | input that shows it | evidently intended | confidence | as-written member | corrected member |
|---|---|---|---|---|---|---|
| web/src/components/EditLimitsForm/EditLimitsForm.tsx:105 | The masked value for a stored "0" is the three-character string `âˆž`: UTF-8 bytes of "∞" decoded as Windows-1252. | any form state outside Block mode whose rate is "0" | the one-character infinity sign "∞", as the node table and the default panel show | high (not executed) | EditLimitsForm.MaskedInfinityIsMisencoded | EditLimitsForm.MaskedLimitFixed |
| web/src/components/EditLimitsForm/EditLimitsForm.tsx:50-66 | Turning use-default on sets an unlimited flag when the default field is "0" but never clears one. | seed {rate "0", pending "0", Fail}, then use-default on with default {rate "10", pending "5", Queue}: rate becomes "10" while its unlimited box stays checked, and the select shows allow-all | each flag is set iff the copied default field is "0" | medium (not executed) | EditLimitsForm.UseDefaultLeavesStaleFlag | EditLimitsForm.StepFixedKeepsFlagsAgree |
