/**
 * The two `getValue` entry points of the node base class. A node's own
 * evaluation (`getValueInternal`), the class-assignability test and the type
 * converter are code this model does not contain: they come in as functions,
 * and `S` stands for the expression state they work on.
 */
module Evaluation {
  import opened Wrappers
  import opened JavaValues

  /** The value part of what `getValueInternal` produced, or its exception. */
  function ValueOf(r: Result<TypedValue, EvaluationException>): Result<Value, EvaluationException>
  {
    match r
    case Success(tv) => Success(tv.value)
    case Failure(e) => Failure(e)
  }

  /**
   * `getValue(expressionState)`: evaluates against the given state; a missing
   * state is replaced by a fresh default one and evaluation is retried with it.
   */
  function GetValue<S>(state: Option<S>, getValueInternal: S -> Result<TypedValue, EvaluationException>,
                       freshState: S): (r: Result<Value, EvaluationException>)
    decreases state.None?
    ensures var used := if state.Some? then state.value else freshState;
            && (r.Success? <==> getValueInternal(used).Success?)
            && (r.Success? ==> r.value == getValueInternal(used).value.value)
            && (r.Failure? ==> r.error == getValueInternal(used).error)
  {
    match state
    case Some(s) => ValueOf(getValueInternal(s))
    case None => GetValue(Some(freshState), getValueInternal, freshState)
  }

  /** A missing state behaves exactly like the fresh default state: no error comes from its absence. */
  lemma MissingStateUsesDefault<S>(getValueInternal: S -> Result<TypedValue, EvaluationException>, freshState: S)
    ensures GetValue(None, getValueInternal, freshState) == GetValue(Some(freshState), getValueInternal, freshState)
  {
  }

  /** The evaluated value is non-null, a desired type is given, and that type does not accept it. */
  predicate NeedsConversion<S>(state: S, desired: Option<JavaClass>,
                               getValueInternal: S -> Result<TypedValue, EvaluationException>,
                               isAssignableFrom: (JavaClass, JavaClass) -> bool)
  {
    var raw := getValueInternal(state);
    && raw.Success? && raw.value.value != Null && desired.Some?
    && !isAssignableFrom(desired.value, RuntimeClass(raw.value.value))
  }

  /**
   * The typed `getValue(state, desiredReturnType)`. `isAssignableFrom(t, c)`
   * is Java's `t.isAssignableFrom(c)`; `convert` is the conversion utility
   * applied to the state's evaluation context.
   */
  function GetTypedValue<S>(state: S, desired: Option<JavaClass>,
                            getValueInternal: S -> Result<TypedValue, EvaluationException>,
                            isAssignableFrom: (JavaClass, JavaClass) -> bool,
                            convert: (S, Value, JavaClass) -> Result<Value, EvaluationException>)
    : (r: Result<Value, EvaluationException>)
    ensures getValueInternal(state).Failure? ==> r == Failure(getValueInternal(state).error)
    ensures getValueInternal(state).Success? && !NeedsConversion(state, desired, getValueInternal, isAssignableFrom) ==>
              r == Success(getValueInternal(state).value.value)
    ensures NeedsConversion(state, desired, getValueInternal, isAssignableFrom) ==>
              r == convert(state, getValueInternal(state).value.value, desired.value)
  {
    match getValueInternal(state)
    case Failure(e) => Failure(e)
    case Success(tv) =>
      var result := tv.value;
      if result != Null && desired.Some? then
        if isAssignableFrom(desired.value, RuntimeClass(result)) then Success(result)
        else convert(state, result, desired.value)
      else Success(result)
  }

  /** The converter is consulted only when conversion is needed: otherwise any two converters give the same answer. */
  lemma ConverterUnusedUnlessNeeded<S>(state: S, desired: Option<JavaClass>,
                                       getValueInternal: S -> Result<TypedValue, EvaluationException>,
                                       isAssignableFrom: (JavaClass, JavaClass) -> bool,
                                       convert1: (S, Value, JavaClass) -> Result<Value, EvaluationException>,
                                       convert2: (S, Value, JavaClass) -> Result<Value, EvaluationException>)
    requires !NeedsConversion(state, desired, getValueInternal, isAssignableFrom)
    ensures GetTypedValue(state, desired, getValueInternal, isAssignableFrom, convert1)
         == GetTypedValue(state, desired, getValueInternal, isAssignableFrom, convert2)
  {
  }

  /**
   * The unchecked cast `(T) result` is sound: if the converter only produces
   * values of the type it was asked for, a non-null result is of the desired type.
   */
  lemma ResultHasDesiredType<S>(state: S, d: JavaClass,
                                getValueInternal: S -> Result<TypedValue, EvaluationException>,
                                isAssignableFrom: (JavaClass, JavaClass) -> bool,
                                convert: (S, Value, JavaClass) -> Result<Value, EvaluationException>)
    requires forall v :: convert(state, v, d).Success? && convert(state, v, d).value != Null ==>
                           isAssignableFrom(d, RuntimeClass(convert(state, v, d).value))
    ensures var r := GetTypedValue(state, Some(d), getValueInternal, isAssignableFrom, convert);
            r.Success? && r.value != Null ==> isAssignableFrom(d, RuntimeClass(r.value))
  {
  }

  /** A null comes back only when evaluation produced null or the converter returned it. */
  lemma NullOnlyFromEvaluationOrConverter<S>(state: S, desired: Option<JavaClass>,
                                             getValueInternal: S -> Result<TypedValue, EvaluationException>,
                                             isAssignableFrom: (JavaClass, JavaClass) -> bool,
                                             convert: (S, Value, JavaClass) -> Result<Value, EvaluationException>)
    requires GetTypedValue(state, desired, getValueInternal, isAssignableFrom, convert) == Success(Null)
    ensures getValueInternal(state).Success?
    ensures getValueInternal(state).value.value == Null
            || (desired.Some? && convert(state, getValueInternal(state).value.value, desired.value) == Success(Null))
  {
  }
}
