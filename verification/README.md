# RxViewModel: form validation and tear-down

This project models the one piece of logic that the reactive demo view-model
`RxViewModel` defines itself. That piece is the form-validation rule
`isValidForm`, which the `formValidation` stream applies to each (user name,
password) pair it receives. The model also covers the view-model's
subscription registry (a composite disposable) and the guard in `onCleared`
that disposes the registry only when it is not already disposed.

- `wrappers.dfy`: module `Wrappers`, the `Option` type for the error half of a result.
- `form_validation.dfy`: module `FormValidation`. It holds the error kinds
  (`InvalidName`, `InvalidPassword`), the checker's report `Strength(tier, strong)`,
  the result pair `ValidationResult(code, error)`, the rule `IsValidForm`, the
  stream `ValidationStream`, and the lemmas about them. The password-strength
  checker `checkString` is not part of this model. Every member takes it as a
  parameter: a total function from the password to its `(tier, strong)` report.
- `disposal.dfy`: module `Disposal`. It holds the class `CompositeDisposable`
  (fields `disposed`, `subscriptions`, `released`, plus a ghost count of dispose
  calls) and the class `RxViewModel`. The view-model's registry field is null
  until first use, because the source creates it lazily. `Register` is the
  `disposable.add(...)` call each pipeline makes, and `OnCleared` is the
  tear-down. `ClearTwiceScenario` is a client that registers, clears twice and
  registers again.

The rule decides by the first case that matches: an empty name, then an empty
password, then the checker's strong flag, then its tier 1, 2 or 3, and
otherwise code 0 with no error. The source computes the checker's report
before it tests the name. The checker is modelled as a pure function, so this
order changes nothing in the model.

## Model

| member | source | states |
|---|---|---|
| FormValidation.IsValidForm | app/src/main/java/com/example/wallpaper/ui/rx/RxViewModel.kt:83-94 | every result has a code in 0..4, and code 4 comes with no error (so any error comes with a code below 4); the name error occurs exactly when the name is empty; code 4 occurs exactly when name and password are non-empty and the checker says strong; a code in 1..3 equals the checker's tier and comes with the password error; no error implies both fields are non-empty |
| FormValidation.EmptyNameRejected | app/src/main/java/com/example/wallpaper/ui/rx/RxViewModel.kt:86 | an empty name gives (0, InvalidName) for every password and every checker |
| FormValidation.EmptyPasswordRejected | app/src/main/java/com/example/wallpaper/ui/rx/RxViewModel.kt:87 | a non-empty name with an empty password gives (0, InvalidPassword) for every checker |
| FormValidation.StrongPasswordAccepted | app/src/main/java/com/example/wallpaper/ui/rx/RxViewModel.kt:88 | non-empty fields and a strong report give (4, no error), whatever tier the checker also reports |
| FormValidation.WeakPasswordTier | app/src/main/java/com/example/wallpaper/ui/rx/RxViewModel.kt:89-91 | non-empty fields, a report that is not strong, and tier t in {1,2,3} give (t, InvalidPassword) |
| FormValidation.UnratedPasswordFallsThrough | app/src/main/java/com/example/wallpaper/ui/rx/RxViewModel.kt:92 | non-empty fields, a report that is not strong, and a tier outside {1,2,3} give (0, no error) |
| FormValidation.RuleSeesOnlyEmptinessAndStrength | app/src/main/java/com/example/wallpaper/ui/rx/RxViewModel.kt:84-93 | two inputs that agree on which fields are empty, and on the checker's report for a non-empty password, get the same result |
| FormValidation.ValidationStream | app/src/main/java/com/example/wallpaper/ui/rx/RxViewModel.kt:70-81 | the stream emits one value per (name, password) pair it is handed |
| FormValidation.ValidationStreamAt | app/src/main/java/com/example/wallpaper/ui/rx/RxViewModel.kt:77-79 | the k-th emitted value is exactly the rule applied to the k-th pair (the logging call does not affect it) |
| FormValidation.ValidationStreamWellFormed | app/src/main/java/com/example/wallpaper/ui/rx/RxViewModel.kt:74-80 | every emitted value is well formed (code in 0..4, code 4 without error), and it carries the name error exactly at the pairs whose name is empty |
| Disposal.CompositeDisposable.constructor | app/src/main/java/com/example/wallpaper/ui/rx/RxViewModel.kt:29-31 | a new registry is not disposed, holds nothing and has released nothing |
| Disposal.CompositeDisposable.Add | app/src/main/java/com/example/wallpaper/ui/rx/RxViewModel.kt:34 | a subscription is held exactly when the registry is not disposed, otherwise it is released at once; the result says which |
| Disposal.CompositeDisposable.Dispose | app/src/main/java/com/example/wallpaper/ui/rx/RxViewModel.kt:114 | afterwards the registry is disposed, holds nothing, and has released everything it held before |
| Disposal.RxViewModel.constructor | app/src/main/java/com/example/wallpaper/ui/rx/RxViewModel.kt:21-31 | a new view-model has not yet created its registry and has registered nothing |
| Disposal.RxViewModel.Disposable | app/src/main/java/com/example/wallpaper/ui/rx/RxViewModel.kt:29-31 | the first access creates a fresh, empty registry that is not disposed; later accesses return the same registry and change nothing |
| Disposal.RxViewModel.Register | app/src/main/java/com/example/wallpaper/ui/rx/RxViewModel.kt:34 | the `disposable.add(...)` call each pipeline makes (also at :47, :59 and :100): the subscription joins the registered set; the disposed flag keeps its old value; before tear-down the registry holds every registered subscription and has released none, after it it holds none and has released all, the new one included |
| Disposal.RxViewModel.OnCleared | app/src/main/java/com/example/wallpaper/ui/rx/RxViewModel.kt:111-115 | afterwards the registry exists, is disposed and holds nothing; every registered subscription is released; dispose has run exactly once over the view-model's life; a call on a registry that is already disposed changes nothing |

The class invariant `RxViewModel.Valid` is kept by every method of the view-model.
It says that every registered subscription is either held or released by the
registry, that nothing is released before disposal and nothing is held after
it, and that dispose has run once if the registry is disposed and never
otherwise.

## Left out

- The debounce, zip, repeat-until and combine-latest pipelines (RxViewModel.kt:33-68 and 96-106). Their behaviour is that of the reactive library's operators. Only the registration of their subscriptions is modelled, by `Register`.
- The combining operator inside `formValidation`. The model takes as input the sequence of pairs that the operator hands to the combiner; how it merges the latest value of each field is library behaviour.
- `checkString` and its strength rules: it is not part of this model and is a parameter instead. It is assumed total and never to throw; the source calls it at RxViewModel.kt:84 before either emptiness test, so a checker that threw (on an empty password, say) would end the source stream with an error where the model returns a result. The tier is left as any integer, because the rule's code does not limit it.
- The Timber logging calls and the observable text cell (`MutableLiveData`). The log is for diagnostics only, and the text cell is written only by the pipelines that are left out.
- Scheduler hops, the interval timers and the one-second `Thread.sleep`. These are timing and concurrency matters.
- The `BaseViewModel` superclass and `super.onCleared()`: their source is not part of this model. Neither is dependency injection.
- The identity of exception objects. The model keeps only the kind of error.
- Disposal.CompositeDisposable.Add: the registry's behaviour is the library's. Three behaviours are assumed: add after dispose releases the argument; dispose is a no-op on a disposed registry; subscriptions are identified by a number. The model does not say what releasing a subscription stops.
