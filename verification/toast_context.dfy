/**
 * The toast lifecycle manager: the provider's ordered collection of entries,
 * its two mutation entry points (add and remove) and the hook that refuses to
 * work outside a provider.
 *
 * React state is modelled as a plain value: each operation takes the previous
 * collection and returns the next one, exactly like the updater functions the
 * provider hands to `setToasts`.
 */
module ToastContext {
  import opened Wrappers

  /** Toast identifiers are uuid strings; generation is left to the caller. */
  type Id = string

  /** Duration stored when the caller omits one, in milliseconds. */
  const DefaultDuration: nat := 6000

  /** The error `useToast` throws outside a provider. */
  const MissingProviderMessage: string := "useToast must be used within a ToastProvider"

  /**
   * One stored toast. `kind` is the source's `type` property, kept verbatim:
   * the manager never checks it against the known categories.
   */
  datatype Entry = Entry(id: Id, kind: string, title: Option<string>, message: string, duration: nat)

  /** The argument of `addToast`; an absent duration is `None`, distinct from 0. */
  datatype Request = Request(kind: string, title: Option<string>, message: string, duration: Option<nat>)

  /** The set of identifiers present in a collection. */
  function Ids(toasts: seq<Entry>): set<Id> {
    set e | e in toasts :: e.id
  }

  /** The collection invariant: no two entries share an id. */
  ghost predicate UniqueIds(toasts: seq<Entry>) {
    forall i, j | 0 <= i < j < |toasts| :: toasts[i].id != toasts[j].id
  }

  /** The entry `addToast` builds from a request and a freshly drawn id. */
  function NewEntry(request: Request, id: Id): (e: Entry)
    ensures e.id == id
    ensures e.kind == request.kind && e.title == request.title && e.message == request.message
    ensures request.duration.None? ==> e.duration == DefaultDuration
    ensures request.duration.Some? ==> e.duration == request.duration.value
  {
    Entry(id, request.kind, request.title, request.message, request.duration.GetOr(DefaultDuration))
  }

  /** `addToast`: append one entry, leaving every earlier entry where it was. */
  function AddToast(toasts: seq<Entry>, request: Request, id: Id): (r: seq<Entry>)
    ensures |r| == |toasts| + 1
    ensures r[..|toasts|] == toasts
    ensures r[|toasts|] == NewEntry(request, id)
    ensures Ids(r) == Ids(toasts) + {id}
  {
    toasts + [NewEntry(request, id)]
  }

  /**
   * The collection with every entry whose id is in `gone` filtered out,
   * preserving the order of the rest.
   */
  function Without(toasts: seq<Entry>, gone: set<Id>): (r: seq<Entry>)
    ensures |r| <= |toasts|
  {
    if |toasts| == 0 then []
    else
      var rest := Without(toasts[1..], gone);
      assert toasts == [toasts[0]] + toasts[1..];
      if toasts[0].id in gone then rest else [toasts[0]] + rest
  }

  /** `removeToast(id)`: filter out the entry with that id, if any. */
  function RemoveToast(toasts: seq<Entry>, id: Id): (r: seq<Entry>)
    ensures forall e :: e in r <==> e in toasts && e.id != id
    ensures Ids(r) == Ids(toasts) - {id}
    ensures id !in Ids(toasts) ==> r == toasts
  {
    WithoutMembers(toasts, {id});
    WithoutIds(toasts, {id});
    WithoutNothing(toasts, {id});
    Without(toasts, {id})
  }

  /** `useToast`: the provider's value, or the error thrown when there is none. */
  function UseToast(provider: Option<seq<Entry>>): (r: Result<seq<Entry>, string>)
    ensures r.Err? <==> provider.None?
    ensures r.Err? ==> r.error == MissingProviderMessage
    ensures r.Ok? ==> r.value == provider.value
  {
    match provider
    case None => Err(MissingProviderMessage)
    case Some(toasts) => Ok(toasts)
  }

  /** The provider's initial state: `useState([])`. */
  function Initial(): (r: seq<Entry>)
    ensures Ids(r) == {} && UniqueIds(r)
  {
    []
  }

  // ---------------------------------------------------------------------------
  // Properties of add and remove
  // ---------------------------------------------------------------------------

  /** A singleton-headed collection is unique iff its head is fresh in, and its tail unique. */
  lemma UniqueCons(e: Entry, rest: seq<Entry>)
    ensures UniqueIds([e] + rest) <==> e.id !in Ids(rest) && UniqueIds(rest)
  {
    var s := [e] + rest;
    if e.id in Ids(rest) {
      var k :| 0 <= k < |rest| && rest[k].id == e.id;
      assert s[0] == e && s[k + 1] == rest[k];
      assert !UniqueIds(s);
    }
    if UniqueIds(s) {
      forall i, j | 0 <= i < j < |rest| ensures rest[i].id != rest[j].id {
        assert s[i + 1] == rest[i] && s[j + 1] == rest[j];
      }
    }
    if e.id !in Ids(rest) && UniqueIds(rest) {
      forall i, j | 0 <= i < j < |s| ensures s[i].id != s[j].id {
        if i == 0 {
          assert s[j] == rest[j - 1];
          assert s[j] in rest;
        } else {
          assert s[i] == rest[i - 1] && s[j] == rest[j - 1];
        }
      }
    }
  }

  /** Adding keeps ids unique exactly when the new id is fresh. */
  lemma {:induction false} AddKeepsUniqueIff(toasts: seq<Entry>, request: Request, id: Id)
    requires UniqueIds(toasts)
    ensures UniqueIds(AddToast(toasts, request, id)) <==> id !in Ids(toasts)
  {
    var r := AddToast(toasts, request, id);
    if id !in Ids(toasts) {
      forall i, j | 0 <= i < j < |r| ensures r[i].id != r[j].id {
        if j == |toasts| {
          assert r[i] == toasts[i];
          assert r[i] in toasts;
        } else {
          assert r[i] == toasts[i] && r[j] == toasts[j];
        }
      }
    } else {
      var k :| 0 <= k < |toasts| && toasts[k].id == id;
      assert r[k] == toasts[k] && r[|toasts|].id == id;
    }
  }

  /** Two adds in a row leave both new entries at the end, in call order. */
  lemma AddTwiceInOrder(toasts: seq<Entry>, first: Request, a: Id, second: Request, b: Id)
    ensures AddToast(AddToast(toasts, first, a), second, b)
         == toasts + [NewEntry(first, a), NewEntry(second, b)]
  {
    var once := AddToast(toasts, first, a);
    var twice := AddToast(once, second, b);
    assert once == toasts + [NewEntry(first, a)];
  }

  /** Filtering keeps exactly the entries whose id is not filtered. */
  lemma {:induction false} WithoutMembers(toasts: seq<Entry>, gone: set<Id>)
    ensures forall e :: e in Without(toasts, gone) <==> e in toasts && e.id !in gone
  {
    if |toasts| > 0 {
      WithoutMembers(toasts[1..], gone);
      assert toasts == [toasts[0]] + toasts[1..];
    }
  }

  /** Filtering removes exactly the filtered ids from the collection's ids. */
  lemma WithoutIds(toasts: seq<Entry>, gone: set<Id>)
    ensures Ids(Without(toasts, gone)) == Ids(toasts) - gone
  {
    var r := Without(toasts, gone);
    WithoutMembers(toasts, gone);
    forall id | id in Ids(toasts) - gone ensures id in Ids(r) {
      var e :| e in toasts && e.id == id;
      assert e in r;
    }
  }

  /** Filtering by ids that no entry carries changes nothing. */
  lemma {:induction false} WithoutNothing(toasts: seq<Entry>, gone: set<Id>)
    ensures gone !! Ids(toasts) ==> Without(toasts, gone) == toasts
  {
    if |toasts| > 0 && gone !! Ids(toasts) {
      assert toasts[0] in toasts;
      assert Ids(toasts[1..]) <= Ids(toasts);
      WithoutNothing(toasts[1..], gone);
      assert toasts == [toasts[0]] + toasts[1..];
    }
  }

  /** Filtering distributes over concatenation, so relative order is kept. */
  lemma {:induction false} WithoutAppend(a: seq<Entry>, b: seq<Entry>, gone: set<Id>)
    ensures Without(a + b, gone) == Without(a, gone) + Without(b, gone)
  {
    if |a| == 0 {
      assert a + b == b;
    } else {
      assert (a + b)[1..] == a[1..] + b;
      WithoutAppend(a[1..], b, gone);
    }
  }

  /** Filtering twice is filtering once by the union: removals commute and are idempotent. */
  lemma {:induction false} WithoutTwice(toasts: seq<Entry>, first: set<Id>, second: set<Id>)
    ensures Without(Without(toasts, first), second) == Without(toasts, first + second)
  {
    if |toasts| > 0 {
      WithoutTwice(toasts[1..], first, second);
      var rest := Without(toasts[1..], first);
      if toasts[0].id !in first {
        assert Without(toasts, first) == [toasts[0]] + rest;
        assert ([toasts[0]] + rest)[1..] == rest;
      }
    }
  }

  /** Filtering keeps ids unique. */
  lemma {:induction false} WithoutKeepsUnique(toasts: seq<Entry>, gone: set<Id>)
    requires UniqueIds(toasts)
    ensures UniqueIds(Without(toasts, gone))
  {
    if |toasts| > 0 {
      assert toasts == [toasts[0]] + toasts[1..];
      UniqueCons(toasts[0], toasts[1..]);
      WithoutKeepsUnique(toasts[1..], gone);
      var rest := Without(toasts[1..], gone);
      if toasts[0].id !in gone {
        WithoutIds(toasts[1..], gone);
        UniqueCons(toasts[0], rest);
      }
    }
  }

  /** The tail of a unique collection is unique, and misses the head's id. */
  lemma UniqueTail(toasts: seq<Entry>)
    requires UniqueIds(toasts)
    requires |toasts| > 0
    ensures UniqueIds(toasts[1..])
    ensures toasts[0].id !in Ids(toasts[1..])
  {
    assert toasts == [toasts[0]] + toasts[1..];
    UniqueCons(toasts[0], toasts[1..]);
  }

  /** Filtering a unique collection by the id of entry `i` drops just that entry. */
  lemma {:induction false} WithoutAt(toasts: seq<Entry>, i: nat)
    requires UniqueIds(toasts)
    requires i < |toasts|
    ensures Without(toasts, {toasts[i].id}) == toasts[..i] + toasts[i + 1..]
  {
    var id := toasts[i].id;
    var tail := toasts[1..];
    UniqueTail(toasts);
    if i == 0 {
      WithoutNothing(tail, {id});
    } else {
      assert tail[i - 1] == toasts[i];
      assert toasts[0].id != id;
      WithoutAt(tail, i - 1);
      calc {
        Without(toasts, {id});
        [toasts[0]] + Without(tail, {id});
        [toasts[0]] + (tail[..i - 1] + tail[i..]);
        { assert [toasts[0]] + tail[..i - 1] == toasts[..i]; }
        toasts[..i] + tail[i..];
        { assert tail[i..] == toasts[i + 1..]; }
        toasts[..i] + toasts[i + 1..];
      }
    }
  }

  /**
   * In a collection with unique ids, removing the id of entry `i` removes that
   * entry and nothing else; the others keep their order and their fields.
   */
  lemma RemoveAt(toasts: seq<Entry>, i: nat)
    requires UniqueIds(toasts)
    requires i < |toasts|
    ensures RemoveToast(toasts, toasts[i].id) == toasts[..i] + toasts[i + 1..]
  {
    WithoutAt(toasts, i);
  }

  /** Removing a present id shrinks a unique collection by exactly one. */
  lemma RemovePresentShrinks(toasts: seq<Entry>, id: Id)
    requires UniqueIds(toasts)
    requires id in Ids(toasts)
    ensures |RemoveToast(toasts, id)| == |toasts| - 1
  {
    var i :| 0 <= i < |toasts| && toasts[i].id == id;
    RemoveAt(toasts, i);
  }

  /** Removing the same id twice is the same as removing it once. */
  lemma RemoveIdempotent(toasts: seq<Entry>, id: Id)
    ensures RemoveToast(RemoveToast(toasts, id), id) == RemoveToast(toasts, id)
  {
    WithoutTwice(toasts, {id}, {id});
    assert {id} + {id} == {id};
  }

  /** Removals of two ids commute. */
  lemma RemoveCommutes(toasts: seq<Entry>, a: Id, b: Id)
    ensures RemoveToast(RemoveToast(toasts, a), b) == RemoveToast(RemoveToast(toasts, b), a)
  {
    WithoutTwice(toasts, {a}, {b});
    WithoutTwice(toasts, {b}, {a});
    assert {a} + {b} == {b} + {a};
  }

  /** Removing a freshly added toast undoes the add. */
  lemma AddThenRemove(toasts: seq<Entry>, request: Request, id: Id)
    requires id !in Ids(toasts)
    ensures RemoveToast(AddToast(toasts, request, id), id) == toasts
  {
    WithoutAppend(toasts, [NewEntry(request, id)], {id});
    WithoutNothing(toasts, {id});
    assert Without([NewEntry(request, id)], {id}) == [];
  }
}
