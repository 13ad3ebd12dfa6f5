/**
 * One toast renderer: the choices it makes from an entry (default title,
 * displayed title, visual treatment) and its dismissal timer, scheduled on
 * mount, cleared on unmount, and the close control.
 *
 * Markup, class strings and icons are abstracted to a `Look`; the timer is a
 * deadline on a discrete millisecond clock instead of `setTimeout`.
 */
module Toast {
  import opened Wrappers
  import opened ToastContext

  /** The categories the renderer knows, and everything else. */
  datatype Category = Success | Warning | Danger | Other

  /** Reads the stored `type` string as a category, by exact string equality. */
  function Classify(kind: string): (c: Category)
    ensures c == Success <==> kind == "success"
    ensures c == Warning <==> kind == "warning"
    ensures c == Danger <==> kind == "danger"
  {
    if kind == "success" then Success
    else if kind == "warning" then Warning
    else if kind == "danger" then Danger
    else Other
  }

  /** The `type` string naming a category; `Other` has no name and gets "". */
  function KindName(c: Category): string {
    match c
    case Success => "success"
    case Warning => "warning"
    case Danger => "danger"
    case Other => ""
  }

  /** Naming a category and reading the name back gives the category again. */
  lemma ClassifyKindName(c: Category)
    ensures Classify(KindName(c)) == c
  {
  }

  /** A known `type` string is read back to itself; any other reads back as "". */
  lemma KindNameClassify(kind: string)
    ensures Classify(kind) != Other ==> KindName(Classify(kind)) == kind
    ensures Classify(kind) == Other ==> KindName(Classify(kind)) == ""
  {
  }

  /** Upper-cases an ASCII lower-case letter and leaves any other character alone. */
  function UpperAscii(c: char): char {
    if 'a' <= c <= 'z' then (c as int - 32) as char else c
  }

  /** The string with its first character upper-cased. */
  function Capitalized(s: string): string {
    if |s| == 0 then s else [UpperAscii(s[0])] + s[1..]
  }

  /**
   * `getDefaultTitle`: a known category's title is non-empty; any other `type`
   * gets the empty title.
   */
  function DefaultTitle(kind: string): (t: string)
    ensures t == "" <==> Classify(kind) == Other
  {
    match Classify(kind)
    case Success => "Success"
    case Warning => "Warning"
    case Danger => "Danger"
    case Other => ""
  }

  /** Each default title is the category's `type` name with its first letter upper-cased. */
  lemma DefaultTitleCapitalizesName(kind: string)
    ensures DefaultTitle(kind) == Capitalized(KindName(Classify(kind)))
  {
    match Classify(kind)
    case Success =>
      assert Capitalized("success") == ['S'] + "success"[1..];
    case Warning =>
      assert Capitalized("warning") == ['W'] + "warning"[1..];
    case Danger =>
      assert Capitalized("danger") == ['D'] + "danger"[1..];
    case Other =>
  }

  /** `title || getDefaultTitle()`: an absent or empty title is falsy and yields the default. */
  function DisplayedTitle(title: Option<string>, kind: string): (t: string)
    ensures title.Some? && title.value != "" ==> t == title.value
    ensures title.None? || title.value == "" ==> t == DefaultTitle(kind)
  {
    match title
    case Some(given) => if given != "" then given else DefaultTitle(kind)
    case None => DefaultTitle(kind)
  }

  /** The displayed title is blank exactly when no non-empty title was given and the type is unknown. */
  lemma DisplayedTitleBlankIff(title: Option<string>, kind: string)
    ensures DisplayedTitle(title, kind) == ""
        <==> (title.None? || title.value == "") && Classify(kind) == Other
  {
  }

  /** The visual treatment: background and text colours together with the icon. */
  datatype Look = SuccessLook | WarningLook | DangerLook

  /**
   * `COLORS[type] || COLORS.warning` and the matching `ICONS` lookup, read as
   * own-property lookups: each known category has its own look and every other
   * `type` falls back to the warning look.
   */
  function LookOf(kind: string): (l: Look)
    ensures Classify(kind) == Other ==> l == WarningLook
    ensures l == WarningLook <==> Classify(kind) == Warning || Classify(kind) == Other
    ensures l == SuccessLook <==> kind == "success"
    ensures l == DangerLook <==> kind == "danger"
  {
    match Classify(kind)
    case Success => SuccessLook
    case Warning => WarningLook
    case Danger => DangerLook
    case Other => WarningLook
  }

  /** Distinct known categories get distinct looks. */
  lemma KnownLooksDistinct(a: Category, b: Category)
    requires a != Other && b != Other
    ensures LookOf(KindName(a)) == LookOf(KindName(b)) <==> a == b
  {
  }

  /**
   * The fallbacks differ: an unknown `type` is drawn like a warning but, unlike
   * a warning, gets a blank default title.
   */
  lemma UnknownLooksLikeWarningWithBlankTitle(kind: string)
    requires Classify(kind) == Other
    ensures LookOf(kind) == LookOf("warning")
    ensures DefaultTitle(kind) == "" && DefaultTitle("warning") == "Warning"
  {
  }

  /** Names of `Object.prototype` members, which every object literal inherits. */
  const PrototypeMembers: set<string> := {
    "constructor", "hasOwnProperty", "isPrototypeOf", "propertyIsEnumerable",
    "toLocaleString", "toString", "valueOf", "__proto__",
    "__defineGetter__", "__defineSetter__", "__lookupGetter__", "__lookupSetter__"
  }

  /** What a plain-object lookup `COLORS[type]` yields: an own palette or an inherited member. */
  datatype Lookup = Palette(look: Look) | Inherited(member: string)

  /**
   * The lookup as the renderer writes it: `COLORS` and `ICONS` are plain
   * object literals, so a `type` naming an inherited member finds a truthy
   * value and never reaches the `|| COLORS.warning` fallback.
   */
  function LookAsWritten(kind: string): (r: Lookup)
    ensures r == Palette(LookOf(kind)) <==> kind !in PrototypeMembers
    ensures r.Inherited? ==> r.member == kind && Classify(kind) == Other
  {
    if Classify(kind) != Other then Palette(LookOf(kind))
    else if kind in PrototypeMembers then Inherited(kind)
    else Palette(WarningLook)
  }

  /** The `type` "constructor" escapes the warning fallback in the lookup as written. */
  lemma ConstructorEscapesFallback()
    ensures LookAsWritten("constructor") == Inherited("constructor")
    ensures LookOf("constructor") == WarningLook
  {
    assert "constructor" in PrototypeMembers;
  }

  /** What one toast shows: its look, its title line and its message. */
  datatype Presentation = Presentation(look: Look, title: string, message: string)

  /** The presentation of a stored entry. */
  function Present(e: Entry): (p: Presentation)
    ensures p.look == LookOf(e.kind)
    ensures p.title == DisplayedTitle(e.title, e.kind)
    ensures p.message == e.message
  {
    Presentation(LookOf(e.kind), DisplayedTitle(e.title, e.kind), e.message)
  }

  // ---------------------------------------------------------------------------
  // Dismissal timer
  // ---------------------------------------------------------------------------

  /** A call the renderer makes to its `onClose` callback. */
  datatype Call = OnClose(id: Id)

  /**
   * A mounted renderer: its own id, the duration its effect was scheduled with,
   * and the deadline of its pending timer, if one is pending.
   */
  datatype Renderer = Renderer(id: Id, duration: nat, pending: Option<nat>)

  /**
   * Mounting at time `now` runs the effect: a timer is scheduled only when the
   * duration is truthy, that is non-zero, and is due `duration` ms later.
   */
  function Mount(id: Id, duration: nat, now: nat): (r: Renderer)
    ensures r.id == id && r.duration == duration
    ensures r.pending.Some? <==> duration != 0
    ensures r.pending.Some? ==> r.pending.value == now + duration
  {
    Renderer(id, duration, if duration != 0 then Some(now + duration) else None)
  }

  /** Whether the renderer's timer is due once the clock reads `now`. */
  predicate Due(r: Renderer, now: nat) {
    r.pending.Some? && r.pending.value <= now
  }

  /**
   * The clock advances to `now`: a due timer fires once, calling `onClose` with
   * the renderer's own id, and is then spent; otherwise nothing happens.
   */
  function Advance(r: Renderer, now: nat): (out: (Renderer, seq<Call>))
    ensures Due(r, now) ==> out.1 == [OnClose(r.id)] && out.0.pending.None?
    ensures !Due(r, now) ==> out == (r, [])
    ensures out.0.id == r.id && out.0.duration == r.duration
  {
    if Due(r, now) then (r.(pending := None), [OnClose(r.id)]) else (r, [])
  }

  /** Unmounting runs the effect's cleanup, `clearTimeout`, so nothing stays pending. */
  function Unmount(r: Renderer): (r': Renderer)
    ensures r'.pending.None?
    ensures r'.id == r.id && r'.duration == r.duration
  {
    r.(pending := None)
  }

  /**
   * Re-rendering with `duration` at time `now`. The effect depends on
   * `duration`, `id` and `onClose`; the id is fixed by the key and `onClose`
   * is a stable callback, so only a changed duration clears the old timer and
   * schedules a new one from `now`.
   */
  function Rerender(r: Renderer, duration: nat, now: nat): (r': Renderer)
    ensures r'.id == r.id && r'.duration == duration
    ensures duration == r.duration ==> r'.pending == r.pending
    ensures duration != r.duration ==> (r'.pending.Some? <==> duration != 0)
    ensures duration != r.duration && duration != 0 ==> r'.pending == Some(now + duration)
  {
    if duration == r.duration then r else Mount(r.id, duration, now)
  }

  /** The close control calls `onClose` with the renderer's own id, whatever its timer state. */
  function CloseClick(r: Renderer): (calls: seq<Call>)
    ensures calls == [OnClose(r.id)]
  {
    [OnClose(r.id)]
  }

  /** The clock is advanced to each of `times` in turn; the calls made are collected. */
  function AdvanceAll(r: Renderer, times: seq<nat>): (out: (Renderer, seq<Call>))
    decreases |times|
  {
    if |times| == 0 then (r, [])
    else
      var step := Advance(r, times[0]);
      var rest := AdvanceAll(step.0, times[1..]);
      (rest.0, step.1 + rest.1)
  }

  /** Some time in `times` has reached `deadline`. */
  predicate Reaches(times: seq<nat>, deadline: nat) {
    exists k | 0 <= k < |times| :: deadline <= times[k]
  }

  /** A renderer with no pending timer never calls `onClose` by itself. */
  lemma {:induction false} SilentWithoutTimer(r: Renderer, times: seq<nat>)
    requires r.pending.None?
    ensures AdvanceAll(r, times).1 == []
    decreases |times|
  {
    if |times| > 0 {
      SilentWithoutTimer(Advance(r, times[0]).0, times[1..]);
    }
  }

  /**
   * A pending timer calls `onClose` exactly once, with the renderer's own id,
   * if and only if the clock reaches its deadline.
   */
  lemma {:induction false} FiresOnceIffReached(r: Renderer, times: seq<nat>)
    requires r.pending.Some?
    ensures AdvanceAll(r, times).1
         == (if Reaches(times, r.pending.value) then [OnClose(r.id)] else [])
    decreases |times|
  {
    if |times| > 0 {
      var step := Advance(r, times[0]);
      if Due(r, times[0]) {
        SilentWithoutTimer(step.0, times[1..]);
        assert Reaches(times, r.pending.value);
      } else {
        FiresOnceIffReached(r, times[1..]);
        if Reaches(times, r.pending.value) {
          var k :| 0 <= k < |times| && r.pending.value <= times[k];
          assert times[k] == times[1..][k - 1];
        }
        if Reaches(times[1..], r.pending.value) {
          var k :| 0 <= k < |times[1..]| && r.pending.value <= times[1..][k];
          assert times[1..][k] == times[k + 1];
        }
      }
    }
  }

  /**
   * A toast mounted at `now` with a non-zero duration calls `onClose` with its
   * id exactly once if the clock reaches `now + duration`; with duration 0 it
   * never does.
   */
  lemma MountedTimerContract(id: Id, duration: nat, now: nat, times: seq<nat>)
    ensures duration != 0 ==>
      AdvanceAll(Mount(id, duration, now), times).1
        == (if Reaches(times, now + duration) then [OnClose(id)] else [])
    ensures duration == 0 ==> AdvanceAll(Mount(id, duration, now), times).1 == []
  {
    var r := Mount(id, duration, now);
    if duration != 0 {
      FiresOnceIffReached(r, times);
    } else {
      SilentWithoutTimer(r, times);
    }
  }

  /** Once unmounted, a toast's timer never calls `onClose`, however far the clock advances. */
  lemma UnmountCancels(r: Renderer, times: seq<nat>)
    ensures AdvanceAll(Unmount(r), times).1 == []
  {
    SilentWithoutTimer(Unmount(r), times);
  }
}
