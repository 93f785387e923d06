/**
 * The slice of Java's object model the node base class touches: classes
 * compared by identity, references that are null, `Class` objects or other
 * instances, and the exceptions evaluation can raise.
 */
module JavaValues {
  import opened Wrappers

  /** A loaded Java class; two classes are equal exactly when their names are. */
  datatype JavaClass = JavaClass(name: string)

  const ClassOfClass: JavaClass := JavaClass("java.lang.Class")

  /**
   * A Java reference. A `Class` object is `ClassRef`, carrying the class it
   * stands for; every other object is an `Instance` of its runtime class,
   * told apart from equal-looking objects by `identity`.
   */
  datatype Reference = Null | ClassRef(denotes: JavaClass) | Instance(cls: JavaClass, identity: nat)

  /**
   * `Class` is final, so every object whose runtime class is `java.lang.Class`
   * is a `ClassRef`: no `Instance` has that class.
   */
  type Value = r: Reference | !(r.Instance? && r.cls == ClassOfClass) witness Null

  /** `obj.getClass()` for a non-null reference. */
  function RuntimeClass(v: Value): (c: JavaClass)
    requires v != Null
    ensures v.ClassRef? ==> c == ClassOfClass
    ensures v.Instance? ==> c == v.cls
  {
    match v
    case ClassRef(_) => ClassOfClass
    case Instance(c, _) => c
  }

  /**
   * `getObjectClass(obj)`: null for null, the class a `Class` object stands
   * for, and the runtime class of anything else.
   */
  function GetObjectClass(v: Value): (r: Option<JavaClass>)
    ensures r.None? <==> v == Null
    ensures v.ClassRef? ==> r == Some(v.denotes)
    ensures v.Instance? ==> r == Some(RuntimeClass(v))
  {
    match v
    case Null => None
    case ClassRef(c) => Some(c)
    case Instance(c, _) => Some(c)
  }

  /**
   * A type reference and an instance of that type are classified alike,
   * although `getClass()` tells them apart.
   */
  lemma ClassRefClassifiedAsDenoted(c: JavaClass, id: nat)
    requires c != ClassOfClass
    ensures GetObjectClass(ClassRef(c)) == GetObjectClass(Instance(c, id))
    ensures RuntimeClass(ClassRef(c)) != RuntimeClass(Instance(c, id))
  {
  }

  /**
   * Only the `Class` object of `java.lang.Class` itself is classified as
   * `java.lang.Class`; every other `Class` object gives the class it denotes.
   */
  lemma ClassifiedAsClassOnlyForItself(v: Value)
    ensures GetObjectClass(v) == Some(ClassOfClass) <==> v == ClassRef(ClassOfClass)
  {
  }

  /** The messages of `SpelEvaluationException` this model raises. */
  datatype SpelMessage = SetValueNotSupported

  /** An `EvaluationException`. */
  datatype EvaluationException =
    | SpelEvaluationException(position: int, message: SpelMessage, inserts: seq<JavaClass>)
      /** raised by code outside this model: a node's own evaluation or the type converter */
    | RaisedElsewhere(description: string)

  /** A `TypedValue`: an evaluated value and the descriptor of its type. */
  datatype TypedValue = TypedValue(value: Value, descriptor: JavaClass)
}
