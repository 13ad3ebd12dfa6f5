# Toast notifications: a Dafny model of the lifecycle core

This project models the core of a React toast-notification library. That core has three parts:

- the **lifecycle manager** (`ToastProvider`/`useToast`), which owns an ordered collection of toast entries;
- the **renderer** (`Toast`), which turns one entry into a title, a look and a dismissal timer;
- the **container** (`ToastContainer`), which renders one renderer per entry and wires each renderer's `onClose` to `removeToast`.

On top of these, a discrete-time state machine (`Lifecycle`) puts them together. The clock is a millisecond counter. Each mounted renderer's pending `setTimeout` is a deadline.

Modules:

- `Wrappers`: `Option` and `Result`.
- `ToastContext`:
  - `Entry` and `Request`;
  - `addToast` as `AddToast`, which appends an entry and stores duration 6000 when none is given;
  - `removeToast` as `RemoveToast`, which filters by id;
  - `useToast` as `UseToast`, which returns `Err` outside a provider.
- `Toast`:
  - `getDefaultTitle` as `DefaultTitle`;
  - `title || getDefaultTitle()` as `DisplayedTitle`;
  - the `COLORS`/`ICONS` lookup, both corrected (`LookOf`) and as written (`LookAsWritten`);
  - the dismissal timer: `Mount`, `Advance`, `Unmount`, `Rerender` and `CloseClick`.
- `ToastContainer`: `Render` (the `toasts.map`, keyed by id) and `Dispatch` (`onClose = removeToast`).
- `Lifecycle`:
  - state: collection, clock, pending deadlines;
  - events: `Add`, `Close`, `Remove`, `Tick`;
  - the invariant `Valid`, and the end-to-end timer properties.

The uuid drawn by `addToast` is a parameter of `Add`. A trace is admissible when every id it adds is fresh.

## Model

| member | source | states |
|---|---|---|
| ToastContext.NewEntry | src/components/Toast/ToastContext.jsx:18-20 | the stored entry carries the drawn id and the caller's type, title and message; an omitted duration becomes 6000, a given one (0 included) is kept |
| ToastContext.AddToast | src/components/Toast/ToastContext.jsx:18-21 | the collection grows by exactly one, every earlier entry keeps its position, the new entry is last, and its id joins the id set |
| ToastContext.Without | src/components/Toast/ToastContext.jsx:24 | filtering never lengthens the collection |
| ToastContext.WithoutMembers | src/components/Toast/ToastContext.jsx:24 | an entry survives the filter exactly when it was present and its id is not filtered |
| ToastContext.RemoveToast | src/components/Toast/ToastContext.jsx:23-25 | exactly the entries with another id remain, the id leaves the id set, and an absent id leaves the collection unchanged |
| ToastContext.UseToast | src/components/Toast/ToastContext.jsx:7-13 | the hook fails exactly when no provider is present, with the message "useToast must be used within a ToastProvider", and otherwise returns the provider's collection |
| ToastContext.Initial | src/components/Toast/ToastContext.jsx:16 | the provider starts with no ids |
| ToastContext.AddKeepsUniqueIff | src/components/Toast/ToastContext.jsx:18-20 | adding keeps ids unique if and only if the drawn id is fresh |
| ToastContext.AddTwiceInOrder | src/components/Toast/ToastContext.jsx:20 | two adds append their entries in call order |
| ToastContext.WithoutIds | src/components/Toast/ToastContext.jsx:24 | filtering removes exactly the filtered ids from the id set |
| ToastContext.WithoutNothing | src/components/Toast/ToastContext.jsx:24 | filtering by ids that no entry carries is the identity |
| ToastContext.WithoutAppend | src/components/Toast/ToastContext.jsx:24 | filtering distributes over concatenation, so relative order is kept |
| ToastContext.WithoutTwice | src/components/Toast/ToastContext.jsx:24 | filtering twice is filtering once by the union |
| ToastContext.WithoutKeepsUnique | src/components/Toast/ToastContext.jsx:24 | filtering keeps ids unique |
| ToastContext.WithoutAt | src/components/Toast/ToastContext.jsx:24 | in a unique collection, filtering by the id of entry i drops that entry and keeps the rest in order |
| ToastContext.RemoveAt | src/components/Toast/ToastContext.jsx:23-25 | removing the id of entry i yields the collection with only entry i cut out |
| ToastContext.RemovePresentShrinks | src/components/Toast/ToastContext.jsx:24 | removing a present id shrinks a unique collection by exactly one |
| ToastContext.RemoveIdempotent | src/components/Toast/ToastContext.jsx:23-25 | removing an id twice equals removing it once |
| ToastContext.RemoveCommutes | src/components/Toast/ToastContext.jsx:23-25 | removals of two ids commute |
| ToastContext.AddThenRemove | src/components/Toast/ToastContext.jsx:18-25 | removing a freshly added id restores the collection before the add |
| Toast.DefaultTitle | src/components/Toast/Toast.jsx:42-53 | the default title is empty exactly for a type outside success, warning and danger |
| Toast.DefaultTitleCapitalizesName | src/components/Toast/Toast.jsx:42-53 | each known type's default title is its type name with the first letter upper-cased |
| Toast.DisplayedTitle | src/components/Toast/Toast.jsx:63 | a non-empty given title is shown as is; an absent or empty one is replaced by the default title |
| Toast.DisplayedTitleBlankIff | src/components/Toast/Toast.jsx:63 | the shown title is blank exactly when no non-empty title was given and the type is unknown |
| Toast.LookOf | src/components/Toast/Toast.jsx:39-40 | success and danger get their own look, warning and every unknown type get the warning look |
| Toast.KnownLooksDistinct | src/components/Toast/Toast.jsx:5-27 | the three known types have pairwise distinct looks |
| Toast.UnknownLooksLikeWarningWithBlankTitle | src/components/Toast/Toast.jsx:39-53 | an unknown type is drawn like a warning but, unlike a warning, has a blank default title |
| Toast.LookAsWritten | src/components/Toast/Toast.jsx:39-40 | the plain-object lookup reaches the palette (with the warning fallback) exactly when the type is not an inherited Object.prototype member name |
| Toast.ConstructorEscapesFallback | src/components/Toast/Toast.jsx:39-40 | the type "constructor" finds an inherited member instead of the warning look |
| Toast.Present | src/components/Toast/Toast.jsx:39-64 | a toast shows its type's look, its displayed title and its message |
| Toast.Mount | src/components/Toast/Toast.jsx:30-34 | mounting schedules a timer exactly when the duration is non-zero, due that many ms later |
| Toast.Advance | src/components/Toast/Toast.jsx:32-34 | a due timer calls onClose once with the toast's own id and is spent; otherwise nothing happens |
| Toast.Unmount | src/components/Toast/Toast.jsx:35 | unmounting leaves no timer pending |
| Toast.Classify | src/components/Toast/Toast.jsx:43-51 | a type is read as success, warning or danger exactly when it equals that string; anything else is unknown |
| Toast.ClassifyKindName | src/components/Toast/Toast.jsx:43-51 | naming a category and reading the name back with the switch's string comparisons gives the category again |
| Toast.KindNameClassify | src/components/Toast/Toast.jsx:43-51 | a known type string reads back to itself; any other type reads back as the unknown category's empty name |
| Toast.Rerender | src/components/Toast/Toast.jsx:37 | a re-render keeps id and takes the new duration; the same duration keeps the pending timer, a changed one schedules afresh from now exactly when it is non-zero |
| Toast.CloseClick | src/components/Toast/Toast.jsx:67 | the close control calls onClose with the toast's own id |
| Toast.SilentWithoutTimer | src/components/Toast/Toast.jsx:31 | a renderer with no pending timer never calls onClose by itself |
| Toast.FiresOnceIffReached | src/components/Toast/Toast.jsx:31-34 | a pending timer calls onClose exactly once, with its id, if and only if the clock reaches its deadline |
| Toast.MountedTimerContract | src/components/Toast/Toast.jsx:30-37 | a toast mounted with duration d calls onClose once iff the clock reaches mount time plus d; with duration 0 never |
| Toast.UnmountCancels | src/components/Toast/Toast.jsx:35 | after unmount the timer never calls onClose, however far the clock runs |
| ToastContainer.Render | src/components/Toast/ToastContainer.jsx:11-17 | one child per entry, in collection order, keyed by the entry's id and showing its presentation |
| ToastContainer.Dispatch | src/components/Toast/ToastContainer.jsx:15 | an onClose call removes exactly the entries carrying the called id |
| ToastContainer.RenderEmpty | src/components/Toast/ToastContainer.jsx:11 | no child is rendered exactly when the collection is empty |
| ToastContainer.RenderAppend | src/components/Toast/ToastContainer.jsx:11-17 | rendering a concatenation renders each part in turn |
| ToastContainer.RenderAfterAdd | src/components/Toast/ToastContainer.jsx:11-14 | after an add, the existing children keep position and key and one child is appended |
| ToastContainer.CloseRemovesOnlyThatChild | src/components/Toast/ToastContainer.jsx:11-17 | closing child i removes that child only; the others keep order and keys |
| ToastContainer.StaleCloseIsNoOp | src/components/Toast/ToastContainer.jsx:15 | a repeated onClose for the same id removes nothing more |
| ToastContainer.DispatchAllIsWithout | src/components/Toast/ToastContainer.jsx:15 | onClose calls delivered in any order remove exactly the entries whose ids were called |
| Lifecycle.Init | src/components/Toast/ToastContext.jsx:16 | a fresh provider has no toasts and no timers and satisfies the invariant |
| Lifecycle.RendererOf | src/components/Toast/Toast.jsx:29-37 | the renderer of an entry carries its id and duration, has a timer pending exactly when the entry has a deadline, and that timer is due at the recorded deadline |
| Lifecycle.Dismiss | src/components/Toast/ToastContainer.jsx:15 | exactly the entries with the called id leave, the clock stands still, and only that toast's deadline is cleared as its renderer unmounts |
| Lifecycle.Step | src/components/Toast/ToastContext.jsx:18-25 | only an add lengthens the collection, by exactly one; only a tick moves the clock, by exactly its length |
| Lifecycle.Elapse | src/components/Toast/Toast.jsx:32-35 | the clock advances by dt; an entry survives exactly when it has no deadline at or before the new clock; the remaining deadlines are exactly those still in the future, unchanged |
| Lifecycle.StepEntries | src/components/Toast/ToastContext.jsx:18-25 | an event never alters an entry: the entries after it were there before, or are the one the add built |
| Lifecycle.StepIds | src/components/Toast/ToastContext.jsx:18-25 | only an add brings in an id, and only its own |
| Lifecycle.StepKeepsValid | src/components/Toast/ToastContext.jsx:18-25 | every admissible event keeps ids unique, keeps a timer pending exactly for the entries with non-zero duration, and keeps deadlines in the future |
| Lifecycle.DeadlineStable | src/components/Toast/Toast.jsx:30-37 | a pending deadline never moves, and it disappears exactly on that toast's close or removal or on the tick that reaches it, taking the entry with it |
| Lifecycle.AddSchedules | src/components/Toast/Toast.jsx:30-34 | an add appends its entry and schedules a deadline of clock plus duration exactly when the duration is non-zero (6000 when omitted), leaving other deadlines alone |
| Lifecycle.CloseRemovesNow | src/components/Toast/Toast.jsx:67 | a close removes exactly that entry at once, whatever its timer, and drops its deadline |
| Lifecycle.DismissIdempotent | src/components/Toast/ToastContext.jsx:24 | a second removal or close of the same toast changes nothing |
| Lifecycle.TickFiresInAnyOrder | src/components/Toast/Toast.jsx:32-34 | the onClose calls of simultaneously due timers give the tick's result whatever order they are delivered in |
| Lifecycle.ElapseAdditive | src/components/Toast/Toast.jsx:32-34 | advancing the clock by a and then b fires the same timers as advancing it by a + b |
| Lifecycle.TickAdditive | src/components/Toast/Toast.jsx:32-34 | two ticks in a row equal one tick of their total length |
| Lifecycle.CloseIsClick | src/components/Toast/Toast.jsx:67 | a close event is the dismissal by the one onClose call the toast's close control makes |
| Lifecycle.AddMountsRenderer | src/components/Toast/Toast.jsx:30-34 | after an add, the new toast's renderer is the one its effect mounts at the current clock |
| Lifecycle.AdvanceMatchesDue | src/components/Toast/Toast.jsx:32-34 | a toast's own timer fires on a tick exactly when its id is among the due ids of the deadline map |
| Lifecycle.RerenderKeepsTimer | src/components/Toast/Toast.jsx:37 | for any admissible event, re-rendering a surviving toast with its unchanged duration yields exactly the renderer the next state records, so its timer is not restarted |
| Lifecycle.RunKeepsValid | src/components/Toast/ToastContext.jsx:18-25 | every admissible trace keeps the invariant |
| Lifecycle.StaysGone | src/components/Toast/ToastContext.jsx:18-24 | a removed toast stays gone while its id is not added again |
| Lifecycle.GoneByDeadline | src/components/Toast/Toast.jsx:30-35 | a toast with a pending timer is gone once the clock reaches its deadline |
| Lifecycle.PendingUntilDeadline | src/components/Toast/Toast.jsx:30-37 | a toast with a pending timer stays, with the same deadline, while the clock has not reached it and nobody dismissed it |
| Lifecycle.AddedToastLifetime | src/components/Toast/Toast.jsx:30-35 | a toast added with duration d is gone once d ms have passed and stays until then unless dismissed |
| Lifecycle.ZeroDurationStays | src/components/Toast/Toast.jsx:31 | a toast with duration 0 stays until it is closed or removed |

## Left out

- JSX markup, CSS class strings and the icon components are abstracted to the three-valued `Look`. `propTypes` validation warnings are not modelled either.
- React machinery is not modelled:
  - context propagation, `useState` batching and reconciliation;
  - identity of `useCallback` functions: `onClose` is taken to be stable, as `useCallback(..., [])` makes it.
- `useToast` returns only the collection; `addToast` and `removeToast` are the module's functions.
- uuid generation (`uuidv4`) is a parameter of `Add`. Its uniqueness is the trace's admissibility assumption.
- `setTimeout` is a deadline on a discrete clock:
  - negative, fractional, `NaN` or `null` durations are not modelled;
  - the overflow of durations above 2^31 - 1 ms is not modelled: the delay is converted to a signed 32-bit integer, and a result that wraps to a negative value counts as 0;
  - durations are natural numbers, and only 0 is falsy.
- Lifecycle.Elapse fires all timers due by the new clock reading together. `Lifecycle.TickFiresInAnyOrder` shows that the order among them does not change the result.
- Toast.Present: uses the corrected lookup `Toast.LookOf`. For a `type` naming an inherited `Object.prototype` member, the program as written has no palette: `color.bg` is undefined, and for "__proto__" the icon is an object React cannot render. See "## Findings".
- ToastContainer.Render: shows `Toast.Present` for each entry, so it inherits the corrected lookup in the same way.
- Lifecycle assumes that at least one `ToastContainer` is mounted under the provider. `App.js` mounts two: one directly and one inside `ToastDemo`. The two renderers of an entry mount at the same clock with the same duration, so they share one deadline, and the second `onClose` removes nothing more (`ToastContainer.StaleCloseIsNoOp`). One deadline per id is therefore exact. Without any container, no renderer mounts and no timer ever fires, and `Lifecycle.GoneByDeadline` would not describe the program.
- Non-string `title`, `message` or `type` values and an `undefined` `type` are not modelled. An undefined `type` behaves like any unknown string.
- `ToastDemo.jsx`, `App.js` and the Tailwind configuration are outside the core and are not part of this model.

## Findings

| source | as written | input that shows it | evidently intended | confidence | as-written member | corrected member |
|---|---|---|---|---|---|---|
| src/components/Toast/Toast.jsx:39-40 | `COLORS[type] \|\| COLORS.warning` and `ICONS[type] \|\| ICONS.warning` look `type` up on plain object literals, so a type naming an inherited `Object.prototype` member finds a truthy inherited value (a function, or `Object.prototype` itself for "__proto__") | `type: "constructor"` (also "toString", "valueOf", "__proto__", …) | every type other than success, warning and danger falls back to the warning look | not executed | Toast.LookAsWritten, Toast.ConstructorEscapesFallback | Toast.LookOf |
