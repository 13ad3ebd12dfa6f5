/**
 * The stack view: one renderer per entry of the collection, in collection
 * order, keyed by id, each with `removeToast` as its `onClose` callback.
 */
module ToastContainer {
  import opened ToastContext
  import Toast

  /** One rendered child: its React key and what it shows. */
  datatype Rendered = Rendered(key: Id, view: Toast.Presentation)

  /** `toasts.map(toast => <Toast key={toast.id} {...toast} />)`. */
  function Render(toasts: seq<Entry>): (r: seq<Rendered>)
    ensures |r| == |toasts|
    ensures forall i | 0 <= i < |r| :: r[i].key == toasts[i].id && r[i].view == Toast.Present(toasts[i])
  {
    seq(|toasts|, i requires 0 <= i < |toasts| => Rendered(toasts[i].id, Toast.Present(toasts[i])))
  }

  /** Every renderer's `onClose` is `removeToast`: a call removes the entry it names. */
  function Dispatch(toasts: seq<Entry>, call: Toast.Call): (r: seq<Entry>)
    ensures forall e :: e in r <==> e in toasts && e.id != call.id
    ensures Ids(r) == Ids(toasts) - {call.id}
  {
    RemoveToast(toasts, call.id)
  }

  /** The calls of several callbacks, delivered one after another. */
  function DispatchAll(toasts: seq<Entry>, calls: seq<Toast.Call>): seq<Entry>
    decreases |calls|
  {
    if |calls| == 0 then toasts else DispatchAll(Dispatch(toasts, calls[0]), calls[1..])
  }

  /** An empty collection renders no children. */
  lemma RenderEmpty(toasts: seq<Entry>)
    ensures |Render(toasts)| == 0 <==> |toasts| == 0
  {
  }

  /** Rendering a concatenation renders each part in turn. */
  lemma RenderAppend(a: seq<Entry>, b: seq<Entry>)
    ensures Render(a + b) == Render(a) + Render(b)
  {
    var r := Render(a + b);
    var s := Render(a) + Render(b);
    assert |r| == |s|;
    forall i | 0 <= i < |r| ensures r[i] == s[i] {
      if i < |a| {
        assert (a + b)[i] == a[i];
      } else {
        assert (a + b)[i] == b[i - |a|];
      }
    }
  }

  /**
   * Adding a toast only appends a child: every existing child keeps its
   * position and key, so React keeps its instance and its timer.
   */
  lemma RenderAfterAdd(toasts: seq<Entry>, request: ToastContext.Request, id: Id)
    ensures Render(AddToast(toasts, request, id))
         == Render(toasts) + [Rendered(id, Toast.Present(NewEntry(request, id)))]
  {
    RenderAppend(toasts, [NewEntry(request, id)]);
  }

  /**
   * Closing the i-th child (its close control, or its timer, calls `onClose`
   * with its own key) removes exactly that entry; the remaining children are
   * the other ones, in order and with unchanged keys.
   */
  lemma CloseRemovesOnlyThatChild(toasts: seq<Entry>, i: nat, r: Toast.Renderer)
    requires UniqueIds(toasts)
    requires i < |toasts|
    requires r.id == Render(toasts)[i].key
    ensures Dispatch(toasts, Toast.CloseClick(r)[0]) == toasts[..i] + toasts[i + 1..]
    ensures Render(Dispatch(toasts, Toast.CloseClick(r)[0])) == Render(toasts)[..i] + Render(toasts)[i + 1..]
  {
    RemoveAt(toasts, i);
    RenderAppend(toasts[..i], toasts[i + 1..]);
    var rendered := Render(toasts);
    assert Render(toasts[..i]) == rendered[..i];
    assert Render(toasts[i + 1..]) == rendered[i + 1..];
  }

  /** Delivering the same close twice removes no more than delivering it once. */
  lemma StaleCloseIsNoOp(toasts: seq<Entry>, call: Toast.Call)
    ensures DispatchAll(toasts, [call, call]) == Dispatch(toasts, call)
  {
    var once := Dispatch(toasts, call);
    assert [call, call][1..] == [call];
    RemoveIdempotent(toasts, call.id);
    assert DispatchAll(once, [call]) == DispatchAll(Dispatch(once, call), []);
  }

  /**
   * Callbacks delivered in any order remove the same entries: the result is
   * the collection filtered by the set of ids called for.
   */
  lemma {:induction false} DispatchAllIsWithout(toasts: seq<Entry>, calls: seq<Toast.Call>)
    ensures DispatchAll(toasts, calls) == Without(toasts, set c | c in calls :: c.id)
    decreases |calls|
  {
    if |calls| == 0 {
      assert (set c | c in calls :: c.id) == {};
      WithoutNothing(toasts, {});
    } else {
      DispatchAllIsWithout(Dispatch(toasts, calls[0]), calls[1..]);
      WithoutTwice(toasts, {calls[0].id}, set c | c in calls[1..] :: c.id);
      assert calls == [calls[0]] + calls[1..];
      assert (set c | c in calls :: c.id) == {calls[0].id} + (set c | c in calls[1..] :: c.id);
    }
  }
}
