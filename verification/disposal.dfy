/**
 The disposal side of the reactive view-model: a registry of subscriptions
 (a composite disposable) that the view-model creates on first use, adds
 every pipeline's subscription to, and disposes when it is cleared.
 */
module Disposal {

  /** An identifier for one subscription handed to the registry. */
  type Subscription = nat

  /**
   A composite disposable. While it is not disposed, added subscriptions are
   held; disposing it releases every held subscription, and a subscription
   added after that is released at once instead of being held.
   */
  class CompositeDisposable {
    var disposed: bool
    var subscriptions: set<Subscription>  // held, still active
    var released: set<Subscription>       // disposed through this registry
    ghost var disposeCalls: nat           // how often Dispose has been called

    /** Before disposal nothing has been released; after it nothing is held. */
    ghost predicate Valid()
      reads this
    {
      && (disposed ==> subscriptions == {})
      && (!disposed ==> released == {})
    }

    constructor ()
      ensures Valid()
      ensures !disposed && subscriptions == {} && released == {} && disposeCalls == 0
    {
      disposed := false;
      subscriptions := {};
      released := {};
      disposeCalls := 0;
    }

    /** Adds `s`; reports whether it is held (false: the registry was disposed and `s` is released). */
    method Add(s: Subscription) returns (added: bool)
      requires Valid()
      modifies this
      ensures Valid()
      ensures added == !old(disposed)
      ensures subscriptions == if added then old(subscriptions) + {s} else old(subscriptions)
      ensures released == if added then old(released) else old(released) + {s}
      ensures disposed == old(disposed) && disposeCalls == old(disposeCalls)
    {
      if disposed {
        released := released + {s};
        added := false;
      } else {
        subscriptions := subscriptions + {s};
        added := true;
      }
    }

    /** Releases every held subscription and marks the registry disposed; a no-op when already disposed. */
    method Dispose()
      requires Valid()
      modifies this
      ensures Valid()
      ensures disposed && subscriptions == {}
      ensures released == old(released) + old(subscriptions)
      ensures disposeCalls == old(disposeCalls) + 1
    {
      if !disposed {
        disposed := true;
        released := released + subscriptions;
        subscriptions := {};
      }
      disposeCalls := disposeCalls + 1;
    }
  }

  /**
   The part of the view-model that owns the registry. The registry is created
   lazily, on the first access, so `disposable` is null until then.
   `registered` is every subscription ever handed to it.
   */
  class RxViewModel {
    var disposable: CompositeDisposable?
    ghost var registered: set<Subscription>

    /**
     Every registered subscription is held or released by the registry, and
     the registry has been disposed at most once: exactly once if it is
     disposed.
     */
    ghost predicate Valid()
      reads this, disposable
    {
      && (disposable == null ==> registered == {})
      && (disposable != null ==>
            && disposable.Valid()
            && disposable.subscriptions + disposable.released == registered
            && disposable.disposeCalls == if disposable.disposed then 1 else 0)
    }

    constructor ()
      ensures Valid() && disposable == null && registered == {}
    {
      disposable := null;
      registered := {};
    }

    /** The lazily created registry: created, not disposed and empty, on the first access. */
    method Disposable() returns (d: CompositeDisposable)
      requires Valid()
      modifies this
      ensures Valid() && disposable == d && registered == old(registered)
      ensures old(disposable) != null ==> d == old(disposable) && unchanged(this)
      ensures old(disposable) == null ==>
                fresh(d) && !d.disposed && d.subscriptions == {} && d.released == {} && d.disposeCalls == 0
    {
      if disposable == null {
        disposable := new CompositeDisposable();
      }
      d := disposable;
    }

    /**
     A pipeline hands its subscription to the registry. It is held unless the
     view-model has already been cleared, in which case it is released at once.
     */
    method Register(s: Subscription) returns (added: bool)
      requires Valid()
      modifies this, disposable
      ensures Valid() && disposable != null
      ensures if old(disposable) == null then fresh(disposable) else disposable == old(disposable)
      ensures registered == old(registered) + {s}
      ensures added == (old(disposable) == null || !old(disposable.disposed))
      ensures disposable.disposed == !added
      ensures disposable.subscriptions == if added then registered else {}
      ensures disposable.released == if added then {} else registered
    {
      var d := Disposable();
      added := d.Add(s);
      registered := registered + {s};
    }

    /**
     Tear-down: dispose the registry unless it is already disposed. Afterwards
     it is disposed, every registered subscription is released and dispose has
     run exactly once; a second call changes nothing.
     */
    method OnCleared()
      requires Valid()
      modifies this, disposable
      ensures Valid() && disposable != null
      ensures if old(disposable) == null then fresh(disposable) else disposable == old(disposable)
      ensures disposable.disposed && disposable.subscriptions == {} && disposable.disposeCalls == 1
      ensures registered == old(registered) && registered <= disposable.released
      ensures old(disposable) != null && old(disposable.disposed) ==>
                unchanged(this, disposable)
    {
      var d := Disposable();
      if !d.disposed {
        d.Dispose();
      }
    }
  }

  /**
   A view-model's life: a pipeline registers, the view-model is cleared twice,
   and a pipeline started afterwards is released at once.
   */
  method ClearTwiceScenario()
  {
    var vm := new RxViewModel();
    var held := vm.Register(1);
    var second := vm.Register(2);
    assert held && second && vm.disposable.subscriptions == {1, 2};
    vm.OnCleared();
    assert 1 in vm.disposable.released;
    vm.OnCleared();
    assert vm.disposable.disposeCalls == 1;
    var late := vm.Register(3);
    assert !late && vm.disposable.disposed && vm.disposable.released == {1, 2, 3};
  }
}
