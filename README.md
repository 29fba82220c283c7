# Calendar event list and modal state

A model of the state held by the calendar page component `CalendarWithModal`
of the calendarfull single-page application: the in-memory list of event
records, whether the event form modal is open, where it is drawn, and which
date it was opened for, together with the four handlers the calendar widget
and the modal call (date click, cancel, save, event drop).

- `wrappers.dfy` — `Option`, for TypeScript's optional fields and `string | undefined`.
- `decimal.dfy` — the decimal text of a millisecond timestamp
  (`Date.now().toString()`), with its inverse and a proof that the two are
  mutually inverse on canonical digit strings, so distinct timestamps give
  distinct ids.
- `calendar.dfy` — the `Event` record (`IEvent`), the form data
  (`EventFormInputs`), the pure list transformations of save (append) and drop
  (`prev.map` with a conditional spread) and lemmas about them, and the class
  `CalendarWithModal` whose fields are the component's `useState` values and
  whose methods are the handlers.

The clock is a parameter: `HandleSave` takes `now: nat` in place of
`Date.now()`. The modal position is a caller-supplied opaque value.

The component stores `start` and `end` exactly as the form submits them: no
date and time are concatenated (the form's `start` is a date input and its
`end` a time input). There is no edit,
no delete, no persistence to browser storage, and no check that ids are unique
or that `start` precedes `end`. Ids are timestamps and can collide, so
uniqueness is proved only under a hypothesis: a fresh id, or a clock that
moves past every id already in the list.

## Model

| member | source | states |
|---|---|---|
| Decimal.NatToString | src/modules/calendar/Calendar.tsx:46 | the id text of a timestamp is non-empty, all decimal digits, and has no leading zero unless it is "0" |
| Decimal.ParseNatToString | src/modules/calendar/Calendar.tsx:46 | reading the id text back as a decimal number gives the timestamp it was made from |
| Decimal.NatToStringParse | src/modules/calendar/Calendar.tsx:46 | every canonical digit string is the id text of exactly the number it denotes |
| Decimal.NatToStringInjective | src/modules/calendar/Calendar.tsx:46 | two timestamps give the same id text if and only if they are equal |
| Calendar.NewEvent | src/modules/calendar/Calendar.tsx:45-51 | the saved record's id is the decimal text of the supplied timestamp; title, start, end and notes are the submitted form values |
| Calendar.SaveFreshIdKeepsUnique | src/modules/calendar/Calendar.tsx:44-52 | if the list has distinct ids and the timestamp's id is not among them, the list after the append still has distinct ids |
| Calendar.StampedBeforeNowIsFresh | src/modules/calendar/Calendar.tsx:46 | if every id in the list is the text of a timestamp earlier than now, the id made from now is not in the list |
| Calendar.SaveWithAdvancingClock | src/modules/calendar/Calendar.tsx:44-52 | with ids distinct and all stamped before now, saving keeps ids distinct and all stamped before now + 1, so a forward-moving clock keeps ids unique |
| Calendar.Moved | src/modules/calendar/Calendar.tsx:60-66 | one record after a drop keeps its id, title and notes; with the dropped id it takes the dropped start and end, with any other id it is the record unchanged |
| Calendar.DropEvents | src/modules/calendar/Calendar.tsx:58-67 | the dropped list has the same length as the list before |
| Calendar.DropAt | src/modules/calendar/Calendar.tsx:59-66 | at every position the record keeps its id, title and notes; a record with the dropped id gets the dropped start and end; a record with any other id is unchanged |
| Calendar.DropAbsentIsIdentity | src/modules/calendar/Calendar.tsx:58-67 | dropping an id that no record has leaves the list equal to what it was |
| Calendar.DropSameIdOverrides | src/modules/calendar/Calendar.tsx:58-67 | two drops of the same id equal the second drop alone |
| Calendar.DropIdempotent | src/modules/calendar/Calendar.tsx:58-67 | dropping the same id to the same times twice equals dropping once |
| Calendar.DropKeepsIds | src/modules/calendar/Calendar.tsx:58-67 | the set of ids present is unchanged by a drop, so distinct ids stay distinct and timestamp-stamped ids stay stamped |
| Calendar.DropAppend | src/modules/calendar/Calendar.tsx:58-67 | dropping after an append is the drop of the earlier list followed by the moved appended record |
| Calendar.CalendarWithModal.constructor | src/modules/calendar/Calendar.tsx:24-29 | the list starts empty, the modal closed at position (0, 0), no default date |
| Calendar.CalendarWithModal.HandleDateClick | src/modules/calendar/Calendar.tsx:31-38 | the modal is open, drawn at the given position, with the clicked date as default; the list is unchanged |
| Calendar.CalendarWithModal.HandleCancel | src/modules/calendar/Calendar.tsx:40-42 | the modal is closed; list, default date and position are unchanged |
| Calendar.CalendarWithModal.HandleSave | src/modules/calendar/Calendar.tsx:44-54 | the list is the old list with exactly one record, built from the form and the timestamp, appended at the end; the modal is closed; default date and position are unchanged |
| Calendar.CalendarWithModal.HandleEventDrop | src/modules/calendar/Calendar.tsx:56-69 | the list is the drop of the old list; modal state, default date and position are unchanged |
| Calendar.Session | src/modules/calendar/Calendar.tsx:88-111 | clicking a date, saving and then dragging the new event leaves one record with the timestamp's id, the form's title and notes, the dragged times, and the modal closed |

## Left out

- The calendar widget's configuration and rendering (toolbar, views, the `eventContent` renderer): third-party widget setup with no application logic.
- The modal position arithmetic on the clicked cell's bounding rectangle: floating-point pixel math on browser layout; `HandleDateClick` receives the resulting position as an opaque value.
- `Date.now()`: the clock is the `now` parameter of `HandleSave`, a `nat`, so the model covers only non-negative timestamps; a clock set before 1970, whose negative value `toString()` writes with a leading `-` in the id, is not modelled.
- Decimal.NatToString: does not model `toString()` switching to exponent notation at 10^21 and above, because millisecond timestamps are far below that.
- The `console.log` of the list on every render: output only.
- Form validation (required title, date and time) is done by the form library inside the modal component and is not modelled; `HandleSave` accepts any form data, as the handler itself does.
- The modal component's rendering, backdrop click-to-cancel and click propagation, the navigation sidebar, the header and the application shell: presentation only.
- React's batching and re-rendering: each handler is modelled as one atomic update of the component state.
