/** observer.py: an observable holding a list of observers, each at most
    once, notified in registration order. */
module Observer {
  import opened Wrappers
  import opened Seqs

  /** `observers` after `add_observer(o)`: appended when absent, unchanged
      otherwise. */
  function WithObserver<T(==)>(observers: seq<T>, o: T): seq<T>
  {
    if o in observers then observers else observers + [o]
  }

  /** Adding registers `o`, appends it at the end when it was absent and
      keeps the list otherwise; it keeps the list free of duplicates and
      adding twice is adding once. */
  lemma WithObserverSpec<T>(observers: seq<T>, o: T)
    ensures o in WithObserver(observers, o)
    ensures o !in observers ==> WithObserver(observers, o) == observers + [o]
    ensures o in observers ==> WithObserver(observers, o) == observers
    ensures NoDuplicates(observers) ==> NoDuplicates(WithObserver(observers, o))
    ensures WithObserver(WithObserver(observers, o), o) == WithObserver(observers, o)
  {
    if o !in observers {
      var r := observers + [o];
      assert r[|observers|] == o;
      if NoDuplicates(observers) {
        forall i, j | 0 <= i < j < |r| ensures r[i] != r[j] {
          if j == |observers| {
            assert r[i] == observers[i];
          }
        }
      }
    }
  }

  /** `observers` after `list.remove(o)`: its first occurrence taken out. */
  function RemoveFirst<T(==)>(observers: seq<T>, o: T): seq<T>
    decreases |observers|
  {
    if observers == [] then []
    else if observers[0] == o then observers[1..]
    else [observers[0]] + RemoveFirst(observers[1..], o)
  }

  /** Removing at the first index of `o` is `RemoveFirst`. */
  lemma {:induction false} RemoveFirstAt<T>(observers: seq<T>, o: T, i: int)
    requires 0 <= i < |observers| && observers[i] == o && o !in observers[..i]
    ensures RemoveFirst(observers, o) == observers[..i] + observers[i + 1..]
    decreases i
  {
    if i > 0 {
      var rest := observers[1..];
      assert observers[0] != o by {
        assert observers[0] == observers[..i][0];
      }
      assert rest[..i - 1] == observers[1..i];
      var pre := rest[..i - 1];
      assert o !in pre by {
        forall k | 0 <= k < |pre| ensures pre[k] != o {
          assert pre[k] == observers[..i][k + 1];
        }
      }
      RemoveFirstAt(rest, o, i - 1);
      assert [observers[0]] + observers[1..i] == observers[..i];
      assert rest[i..] == observers[i + 1..];
    }
  }

  /** Removal takes out exactly one copy of a registered observer and keeps
      the others. */
  lemma RemoveFirstSpec<T>(observers: seq<T>, o: T, i: int)
    requires 0 <= i < |observers| && observers[i] == o && o !in observers[..i]
    ensures |RemoveFirst(observers, o)| == |observers| - 1
    ensures multiset(RemoveFirst(observers, o)) == multiset(observers) - multiset{o}
  {
    RemoveFirstAt(observers, o, i);
    var front, back := observers[..i], observers[i + 1..];
    assert observers == front + [o] + back;
    assert multiset(observers) == multiset(front) + multiset{o} + multiset(back);
  }

  /** In a duplicate-free list removal takes `o` out entirely, and the list
      stays duplicate-free. */
  lemma RemoveFirstKeepsDistinct<T>(observers: seq<T>, o: T, i: int)
    requires 0 <= i < |observers| && observers[i] == o && o !in observers[..i]
    requires NoDuplicates(observers)
    ensures o !in RemoveFirst(observers, o)
    ensures NoDuplicates(RemoveFirst(observers, o))
  {
    RemoveFirstAt(observers, o, i);
    var r := observers[..i] + observers[i + 1..];
    forall k | 0 <= k < |r| ensures r[k] == observers[if k < i then k else k + 1] {
    }
    forall a, b | 0 <= a < b < |r| ensures r[a] != r[b] {
      assert r[a] == observers[if a < i then a else a + 1];
      assert r[b] == observers[if b < i then b else b + 1];
    }
    forall k | 0 <= k < |r| ensures r[k] != o {
      assert r[k] == observers[if k < i then k else k + 1];
    }
  }

  /** Removing an observer just added to a list that did not hold it gives
      the list back. */
  lemma AddThenRemove<T>(observers: seq<T>, o: T)
    requires o !in observers
    ensures RemoveFirst(WithObserver(observers, o), o) == observers
  {
    var r := observers + [o];
    assert r[..|observers|] == observers;
    RemoveFirstAt(r, o, |observers|);
    assert r[|observers| + 1..] == [];
  }

  /** `delete_observer` of an observer that is not registered: `list.remove`
      raises ValueError. */
  datatype ObserverError = NotRegistered

  /** `Observable`. The invariant: no observer is registered twice. */
  class Observable<T(==)> {
    var observers: seq<T>

    ghost predicate Valid()
      reads this
    {
      NoDuplicates(observers)
    }

    constructor ()
      ensures Valid()
      ensures observers == []
    {
      observers := [];
    }

    /** `add_observer`. */
    method AddObserver(o: T)
      requires Valid()
      modifies this
      ensures Valid()
      ensures observers == WithObserver(old(observers), o)
    {
      WithObserverSpec(observers, o);
      if o !in observers {
        observers := observers + [o];
      }
    }

    /** `delete_observer`: finds the first occurrence and removes it. */
    method DeleteObserver(o: T) returns (r: Outcome<ObserverError>)
      requires Valid()
      modifies this
      ensures Valid()
      ensures r.Fail? <==> o !in old(observers)
      ensures r.Fail? ==> r.error == NotRegistered && observers == old(observers)
      ensures r.Pass? ==> observers == RemoveFirst(old(observers), o) && o !in observers
    {
      var i := 0;
      while i < |observers| && observers[i] != o
        invariant 0 <= i <= |observers|
        invariant o !in observers[..i]
      {
        assert observers[..i + 1] == observers[..i] + [observers[i]];
        i := i + 1;
      }
      if i == |observers| {
        assert observers[..i] == observers;
        return Fail(NotRegistered);
      }
      RemoveFirstKeepsDistinct(observers, o, i);
      RemoveFirstAt(observers, o, i);
      observers := observers[..i] + observers[i + 1..];
      return Pass;
    }

    /** `notify_observers`: calls `update(self)` on each observer; the
        result is the sequence of observers called, in call order. */
    method NotifyObservers() returns (calls: seq<T>)
      ensures calls == observers
    {
      calls := [];
      var i := 0;
      while i < |observers|
        invariant 0 <= i <= |observers|
        invariant calls == observers[..i]
      {
        calls := calls + [observers[i]];
        i := i + 1;
      }
      assert observers[..i] == observers;
    }
  }
}
