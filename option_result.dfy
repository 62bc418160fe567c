/**
  The two return-value containers of the library: `Option` (the `Some` and
  `None` classes) and `Result` (the `Ok` and `Err` classes). Each class of the
  source becomes one variant of a datatype; every combinator becomes a member
  function whose contract is the promise its base-class documentation makes.

  A call that throws is modelled by `Outcome`: either it returned a value or it
  threw one of the exceptions in `Thrown`. Callbacks are pure functions here.
*/
module OptionResult {

  /** The exceptions the containers throw. `Error` is a plain JavaScript
      error, `UnwrapError` carries the value that was not unwrapped, and
      `TypeError` is what the runtime throws when a value is spread that has
      no iterator. */
  datatype Thrown<X> =
    | Error(message: string)
    | UnwrapError(message: string, carried: X)
    | TypeError

  /** What a call that may throw produced. */
  datatype Outcome<T, X> = Returned(value: T) | Threw(thrown: Thrown<X>)

  /** The untagged union `E | F` of two error types, with its two origins made
      explicit. */
  datatype Union<A, B> = First(first: A) | Second(second: B)

  /** The default message of `None.unwrap`. */
  const NoneUnwrapMessage := "Called Option#unwrap on a None value"

  /** A value that may be absent: `some(value)` or `none()`. */
  datatype Option<T> = None | Some(value: T) {

    /** `isSome`: true exactly for `Some`. */
    predicate IsSome()
      ensures IsSome() <==> !None?
    {
      match this
      case Some(_) => true
      case None => false
    }

    /** `isSomeAnd(fn)`: `Some` and the predicate holds of its value. */
    predicate IsSomeAnd(f: T -> bool)
      ensures IsSomeAnd(f) <==> Some? && f(value)
    {
      match this
      case Some(v) => f(v)
      case None => false
    }

    /** `isNone`: true exactly for `None`. */
    predicate IsNone()
      ensures IsNone() <==> !Some?
    {
      match this
      case Some(_) => false
      case None => true
    }

    /** `isNoneOr(fn)`: `None`, or the predicate holds of the value. */
    predicate IsNoneOr(f: T -> bool)
      ensures IsNoneOr(f) <==> None? || f(value)
    {
      match this
      case Some(v) => f(v)
      case None => true
    }

    /** `unwrap(message)`: the value, or a plain `Error` for `None`. */
    function Unwrap(message: string := NoneUnwrapMessage): (r: Outcome<T, ()>)
      ensures r.Returned? <==> Some?
      ensures Some? ==> r.value == value
      ensures None? ==> r.thrown == Error(message)
    {
      match this
      case Some(v) => Returned(v)
      case None => Threw(Error(message))
    }

    /** `unwrap(message)` as `Ok` and `Err` throw: `None` throws an
        `UnwrapError` with the message, carrying nothing. */
    function UnwrapIntended(message: string := NoneUnwrapMessage): (r: Outcome<T, ()>)
      ensures r.Returned? <==> Some?
      ensures Some? ==> r.value == value
      ensures None? ==> r.thrown == UnwrapError(message, ())
    {
      match this
      case Some(v) => Returned(v)
      case None => Threw(UnwrapError(message, ()))
    }

    /** `unwrapOr(default)`: the value, or the default for `None`. */
    function UnwrapOr(default: T): (r: T)
      ensures Some? ==> r == value
      ensures None? ==> r == default
    {
      match this
      case Some(v) => v
      case None => default
    }

    /** `unwrapOrElse(fn)`: the value, or what the fallback computes. */
    function UnwrapOrElse(f: () -> T): (r: T)
      ensures Some? ==> r == value
      ensures None? ==> r == f()
    {
      match this
      case Some(v) => v
      case None => f()
    }

    /** `map(fn)`: the mapped value, or `None`. */
    function Map<U>(f: T -> U): (r: Option<U>)
      ensures r.Some? <==> Some?
      ensures Some? ==> r.value == f(value)
    {
      match this
      case Some(v) => Some(f(v))
      case None => None
    }

    /** `inspect(fn)`: runs `fn` for its side effect and returns the option
        itself; the side effect is outside this model. */
    function Inspect(f: T -> ()): (r: Option<T>)
      ensures r == this
    {
      match this
      case Some(v) => Some(v)
      case None => None
    }

    /** `mapOr(default, fn)`: the mapped value, or the default. */
    function MapOr<U>(default: U, f: T -> U): (r: U)
      ensures Some? ==> r == f(value)
      ensures None? ==> r == default
    {
      match this
      case Some(v) => f(v)
      case None => default
    }

    /** `mapOrElse(defaultFn, fn)`: the mapped value, or what the fallback
        computes. */
    function MapOrElse<U>(default: () -> U, f: T -> U): (r: U)
      ensures Some? ==> r == f(value)
      ensures None? ==> r == default()
    {
      match this
      case Some(v) => f(v)
      case None => default()
    }

    /** `okOr(err)`: `Some` becomes `Ok`, `None` becomes `Err(err)`. */
    function OkOr<E>(e: E): (r: Result<T, E>)
      ensures r.Ok? <==> Some?
      ensures Some? ==> r.value == value
      ensures None? ==> r.error == e
    {
      match this
      case Some(v) => Ok(v)
      case None => Err(e)
    }

    /** Spreading the option (`[...option]`) as the classes are written:
        `Some` has an iterator yielding its value, `None` has none, so
        spreading it throws a `TypeError`. */
    function Spread(): (r: Outcome<seq<T>, ()>)
      ensures Some? ==> r == Returned([value])
      ensures None? ==> r == Threw(TypeError)
    {
      match this
      case Some(v) => Returned([v])
      case None => Threw(TypeError)
    }

    /** `iter()` as the classes are written: only `None` has it, returning an
        empty iterable; on `Some` the call is not a function. */
    function Iter(): (r: Outcome<seq<T>, ()>)
      ensures Some? ==> r == Threw(TypeError)
      ensures None? ==> r == Returned([])
    {
      match this
      case Some(_) => Threw(TypeError)
      case None => Returned([])
    }

    /** The elements an iterator over the option yields: zero or one. */
    function Values(): (r: seq<T>)
      ensures |r| <= 1
      ensures r == [] <==> None?
      ensures forall x :: x in r ==> Some? && x == value
    {
      match this
      case Some(v) => [v]
      case None => []
    }

    /** `and(optionB)`: `optionB` when `Some`, else `None`. */
    function And<U>(b: Option<U>): (r: Option<U>)
      ensures Some? ==> r == b
      ensures None? ==> r == None
    {
      match this
      case Some(_) => b
      case None => None
    }

    /** `andThen(fn)`: the option `fn` makes of the value, else `None`. */
    function AndThen<U>(f: T -> Option<U>): (r: Option<U>)
      ensures Some? ==> r == f(value)
      ensures None? ==> r == None
    {
      match this
      case Some(v) => f(v)
      case None => None
    }

    /** `filter(fn)`: keeps `Some` only when the predicate holds. */
    function Filter(p: T -> bool): (r: Option<T>)
      ensures r.Some? <==> Some? && p(value)
      ensures r.Some? ==> r == this
    {
      match this
      case Some(v) => if p(v) then Some(v) else None
      case None => None
    }

    /** `or(optionB)`: itself when `Some`, else `optionB`. */
    function Or(b: Option<T>): (r: Option<T>)
      ensures Some? ==> r == this
      ensures None? ==> r == b
    {
      match this
      case Some(_) => this
      case None => b
    }

    /** `orElse(fn)`: itself when `Some`, else the option `fn` makes. */
    function OrElse(f: () -> Option<T>): (r: Option<T>)
      ensures Some? ==> r == this
      ensures None? ==> r == f()
    {
      match this
      case Some(_) => this
      case None => f()
    }

    /** `xor(optionB)`: `Some` exactly when one of the two is `Some`, holding
        that one's value. */
    function Xor(b: Option<T>): (r: Option<T>)
      ensures r.Some? <==> (Some? != b.Some?)
      ensures r.Some? ==> r == (if Some? then this else b)
    {
      match this
      case Some(v) =>
        (match b
         case Some(_) => None
         case None => Some(v))
      case None =>
        if b.IsSome() then Some(b.value) else None
    }

    /** `zip(optionB)`: the pair of both values when both are `Some`. */
    function Zip<U>(b: Option<U>): (r: Option<(T, U)>)
      ensures r.Some? <==> Some? && b.Some?
      ensures r.Some? ==> r.value == (value, b.value)
    {
      match this
      case Some(v) =>
        (match b
         case Some(w) => Some((v, w))
         case None => None)
      case None => None
    }

    /** `zipWith(optionB, fn)`: `fn` of both values when both are `Some`. */
    function ZipWith<U, R>(b: Option<U>, f: (T, U) -> R): (r: Option<R>)
      ensures r.Some? <==> Some? && b.Some?
      ensures r.Some? ==> r.value == f(value, b.value)
    {
      match this
      case Some(v) =>
        (match b
         case Some(w) => Some(f(v, w))
         case None => None)
      case None => None
    }

    /** `match({Some, None})`: the handler of the variant, given the value. */
    function Match<R>(onSome: T -> R, onNone: () -> R): (r: R)
      ensures Some? ==> r == onSome(value)
      ensures None? ==> r == onNone()
    {
      match this
      case Some(v) => onSome(v)
      case None => onNone()
    }
  }

  /** The outcome of a computation: `ok(value)` or `err(error)`. */
  datatype Result<T, E> = Ok(value: T) | Err(error: E) {

    /** `isOk`: true exactly for `Ok`. */
    predicate IsOk()
      ensures IsOk() <==> !Err?
    {
      match this
      case Ok(_) => true
      case Err(_) => false
    }

    /** `isOkAnd(fn)`: `Ok` and the predicate holds of its value. */
    predicate IsOkAnd(f: T -> bool)
      ensures IsOkAnd(f) <==> Ok? && f(value)
    {
      match this
      case Ok(v) => f(v)
      case Err(_) => false
    }

    /** `isErr`: true exactly for `Err`. */
    predicate IsErr()
      ensures IsErr() <==> !Ok?
    {
      match this
      case Ok(_) => false
      case Err(_) => true
    }

    /** `isErrAnd(fn)`: `Err` and the predicate holds of its error. */
    predicate IsErrAnd(f: E -> bool)
      ensures IsErrAnd(f) <==> Err? && f(error)
    {
      match this
      case Ok(_) => false
      case Err(e) => f(e)
    }

    /** `ok()`: the success value as an option. */
    function OkOption(): (r: Option<T>)
      ensures r.Some? <==> Ok?
      ensures Ok? ==> r.value == value
    {
      match this
      case Ok(v) => Some(v)
      case Err(_) => None
    }

    /** `err()`: the error as an option. */
    function ErrOption(): (r: Option<E>)
      ensures r.Some? <==> Err?
      ensures Err? ==> r.value == error
    {
      match this
      case Ok(_) => None
      case Err(e) => Some(e)
    }

    /** `map(fn)`: maps the success value, keeps an error. */
    function Map<U>(f: T -> U): (r: Result<U, E>)
      ensures r.Ok? <==> Ok?
      ensures Ok? ==> r.value == f(value)
      ensures Err? ==> r.error == error
    {
      match this
      case Ok(v) => Ok(f(v))
      case Err(e) => Err(e)
    }

    /** `mapOr(default, fn)`: the mapped success value, or the default. */
    function MapOr<U>(default: U, f: T -> U): (r: U)
      ensures Ok? ==> r == f(value)
      ensures Err? ==> r == default
    {
      match this
      case Ok(v) => f(v)
      case Err(_) => default
    }

    /** `mapOrElse(defaultFn, fn)`: the mapped success value, or what the
        fallback computes from the error. */
    function MapOrElse<U>(default: E -> U, f: T -> U): (r: U)
      ensures Ok? ==> r == f(value)
      ensures Err? ==> r == default(error)
    {
      match this
      case Ok(v) => f(v)
      case Err(e) => default(e)
    }

    /** `mapErr(fn)`: maps the error, keeps a success value. */
    function MapErr<F>(f: E -> F): (r: Result<T, F>)
      ensures r.Ok? <==> Ok?
      ensures Ok? ==> r.value == value
      ensures Err? ==> r.error == f(error)
    {
      match this
      case Ok(v) => Ok(v)
      case Err(e) => Err(f(e))
    }

    /** `inspect(fn)`: runs `fn` on a success value for its side effect and
        returns the result unchanged. */
    function Inspect(f: T -> ()): (r: Result<T, E>)
      ensures r == this
    {
      match this
      case Ok(v) => Ok(v)
      case Err(e) => Err(e)
    }

    /** `inspectErr(fn)`: runs `fn` on an error for its side effect and
        returns the result unchanged. */
    function InspectErr(f: E -> ()): (r: Result<T, E>)
      ensures r == this
    {
      match this
      case Ok(v) => Ok(v)
      case Err(e) => Err(e)
    }

    /** The elements an iterator over the result yields: the success value,
        or nothing. */
    function Values(): (r: seq<T>)
      ensures |r| <= 1
      ensures r == [] <==> Err?
      ensures forall x :: x in r ==> Ok? && x == value
    {
      match this
      case Ok(v) => [v]
      case Err(_) => []
    }

    /** `unwrap(message)`: the success value, or an `UnwrapError` carrying
        the error. */
    function Unwrap(message: string): (r: Outcome<T, E>)
      ensures r.Returned? <==> Ok?
      ensures Ok? ==> r.value == value
      ensures Err? ==> r.thrown == UnwrapError(message, error)
    {
      match this
      case Ok(v) => Returned(v)
      case Err(e) => Threw(UnwrapError(message, e))
    }

    /** `unwrapErr(message)`: the error, or an `UnwrapError` carrying the
        success value. */
    function UnwrapErr(message: string): (r: Outcome<E, T>)
      ensures r.Returned? <==> Err?
      ensures Err? ==> r.value == error
      ensures Ok? ==> r.thrown == UnwrapError(message, value)
    {
      match this
      case Ok(v) => Threw(UnwrapError(message, v))
      case Err(e) => Returned(e)
    }

    /** `and(resultB)`: `resultB` when `Ok`, else the error. */
    function And<U>(b: Result<U, E>): (r: Result<U, E>)
      ensures Ok? ==> r == b
      ensures Err? ==> r == Err(error)
    {
      match this
      case Ok(_) => b
      case Err(e) => Err(e)
    }

    /** `andThen(fn)`: the result `fn` makes of the value, else the error. */
    function AndThen<U>(f: T -> Result<U, E>): (r: Result<U, E>)
      ensures Ok? ==> r == f(value)
      ensures Err? ==> r == Err(error)
    {
      match this
      case Ok(v) => f(v)
      case Err(e) => Err(e)
    }

    /** `chain(fn)`: like `andThen`, but `fn` may fail with another error
        type; the result's error is one of the two. */
    function Chain<U, F>(f: T -> Result<U, F>): (r: Result<U, Union<E, F>>)
      ensures Ok? && f(value).Ok? ==> r == Ok(f(value).value)
      ensures Ok? && f(value).Err? ==> r == Err(Second(f(value).error))
      ensures Err? ==> r == Err(First(error))
    {
      match this
      case Ok(v) =>
        (match f(v)
         case Ok(u) => Ok(u)
         case Err(e2) => Err(Second(e2)))
      case Err(e) => Err(First(e))
    }

    /** `or(resultB)`: the success value when `Ok`, else `resultB`. */
    function Or<F>(b: Result<T, F>): (r: Result<T, F>)
      ensures Ok? ==> r == Ok(value)
      ensures Err? ==> r == b
    {
      match this
      case Ok(v) => Ok(v)
      case Err(_) => b
    }

    /** `orElse(fn)`: the success value when `Ok`, else the result `fn`
        makes of the error. */
    function OrElse<F>(f: E -> Result<T, F>): (r: Result<T, F>)
      ensures Ok? ==> r == Ok(value)
      ensures Err? ==> r == f(error)
    {
      match this
      case Ok(v) => Ok(v)
      case Err(e) => f(e)
    }

    /** `unwrapOr(default)`: the success value, or the default. */
    function UnwrapOr(default: T): (r: T)
      ensures Ok? ==> r == value
      ensures Err? ==> r == default
    {
      match this
      case Ok(v) => v
      case Err(_) => default
    }

    /** `unwrapOrElse(fn)`: the success value, or what `fn` makes of the
        error. */
    function UnwrapOrElse(f: E -> T): (r: T)
      ensures Ok? ==> r == value
      ensures Err? ==> r == f(error)
    {
      match this
      case Ok(v) => v
      case Err(e) => f(e)
    }

    /** `match({Ok, Err})`: the handler of the variant, given its payload. */
    function Match<R>(onOk: T -> R, onErr: E -> R): (r: R)
      ensures Ok? ==> r == onOk(value)
      ensures Err? ==> r == onErr(error)
    {
      match this
      case Ok(v) => onOk(v)
      case Err(e) => onErr(e)
    }
  }

  // Laws relating the combinators to each other.

  /** Converting an option to a result and back gives the option again. */
  lemma OkOrRoundTrip<T, E>(o: Option<T>, e: E)
    ensures o.OkOr(e).OkOption() == o
    ensures o.OkOr(e).ErrOption() == (if o.Some? then None else Some(e))
  {
  }

  /** `xor` is symmetric in its two operands. */
  lemma XorSymmetric<T>(a: Option<T>, b: Option<T>)
    ensures a.Xor(b) == b.Xor(a)
  {
  }

  /** `xor` with itself is always `None`. */
  lemma XorSelf<T>(a: Option<T>)
    ensures a.Xor(a) == None
  {
  }

  /** `map` preserves composition of functions. */
  lemma MapCompose<T, U, W>(o: Option<T>, f: T -> U, g: U -> W)
    ensures o.Map(f).Map(g) == o.Map(x => g(f(x)))
  {
  }

  /** `andThen` with `Some` as the continuation leaves the option unchanged,
      and is associative. */
  lemma AndThenLaws<T, U, W>(o: Option<T>, f: T -> Option<U>, g: U -> Option<W>)
    ensures o.AndThen(x => Some(x)) == o
    ensures o.AndThen(f).AndThen(g) == o.AndThen(x => f(x).AndThen(g))
  {
  }

  /** `filter` is `andThen` with a continuation that keeps or drops. */
  lemma FilterIsAndThen<T>(o: Option<T>, p: T -> bool)
    ensures o.Filter(p) == o.AndThen(x => if p(x) then Some(x) else None)
  {
  }

  /** `zipWith` is `zip` followed by `map`. */
  lemma ZipWithIsZipMap<T, U, R>(a: Option<T>, b: Option<U>, f: (T, U) -> R)
    ensures a.ZipWith(b, f) == a.Zip(b).Map((p: (T, U)) => f(p.0, p.1))
  {
  }

  /** The predicate tests are `mapOr` with the neutral default. */
  lemma PredicatesAreMapOr<T>(o: Option<T>, p: T -> bool)
    ensures o.IsSomeAnd(p) == o.MapOr(false, p)
    ensures o.IsNoneOr(p) == o.MapOr(true, p)
    ensures o.IsSomeAnd(p) ==> o.IsNoneOr(p)
  {
  }

  /** `mapOr` is `map` followed by `unwrapOr`. */
  lemma MapOrIsMapUnwrapOr<T, U>(o: Option<T>, d: U, f: T -> U)
    ensures o.MapOr(d, f) == o.Map(f).UnwrapOr(d)
  {
  }

  /** Exactly one of `ok()` and `err()` is `Some`, and `map`/`mapErr` commute
      with them. */
  lemma ResultProjections<T, E, U, F>(r: Result<T, E>, f: T -> U, g: E -> F)
    ensures r.OkOption().Some? != r.ErrOption().Some?
    ensures r.Map(f).OkOption() == r.OkOption().Map(f)
    ensures r.MapErr(g).ErrOption() == r.ErrOption().Map(g)
    ensures r.Map(f).MapErr(g) == r.MapErr(g).Map(f)
  {
  }

  /** `chain` is `andThen` once both error types are injected into the
      union. */
  lemma ChainIsAndThen<T, E, U, F>(r: Result<T, E>, f: T -> Result<U, F>)
    ensures r.Chain(f) ==
            r.MapErr((e: E) => First(e)).AndThen((x: T) => f(x).MapErr((e2: F) => Second(e2)))
  {
  }

  /** `unwrapOr` on a result is `unwrapOr` on its `ok()` option, and `or`
      never turns a success into a failure. */
  lemma ResultFallbacks<T, E, F>(r: Result<T, E>, d: T, b: Result<T, F>)
    ensures r.UnwrapOr(d) == r.OkOption().UnwrapOr(d)
    ensures r.Ok? ==> r.Or(b).Ok?
    ensures r.Or(b).Err? ==> r.Err? && r.Or(b) == b
  {
  }

  /** Exactly one of `unwrap` and `unwrapErr` returns. */
  lemma UnwrapExclusive<T, E>(r: Result<T, E>, message: string)
    ensures r.Unwrap(message).Returned? != r.UnwrapErr(message).Returned?
  {
  }

  /** `None.unwrap` as written throws a plain `Error`, never an
      `UnwrapError`; it agrees with the intended `unwrap` on `Some` and on
      the message. */
  lemma NoneUnwrapThrowsPlainError<T>(o: Option<T>, message: string)
    ensures o.None? ==> o.Unwrap(message).thrown.Error? && !o.Unwrap(message).thrown.UnwrapError?
    ensures o.None? ==> o.Unwrap(message).thrown.message == o.UnwrapIntended(message).thrown.message
    ensures o.Some? ==> o.Unwrap(message) == o.UnwrapIntended(message)
  {
  }

  /** The iterator protocol as written disagrees with the one promised: for
      `None`, spreading throws instead of yielding nothing. */
  lemma NoneSpreadThrows<T>(o: Option<T>)
    requires o.None?
    ensures o.Spread() == Threw(TypeError)
    ensures o.Values() == []
  {
  }

  /** Wherever the written protocol does yield, it yields `Values()`. */
  lemma SpreadAgreesWhereDefined<T>(o: Option<T>)
    ensures o.Spread().Returned? ==> o.Spread().value == o.Values()
    ensures o.Iter().Returned? ==> o.Iter().value == o.Values()
    ensures o.Spread().Returned? != o.Iter().Returned?
  {
  }
}
