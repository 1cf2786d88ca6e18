// BaseActivationMethodAttribute: an assembly-level attribute naming a static
// method to run at one lifecycle phase, with an execution order.
module Attributes {
  import opened Types
  import opened Text
  import opened Reflection

  const NullTypeMessage := "The activation type cannot be null"
  const BlankNameMessage := "The method name cannot be null, empty or whitespace"

  /** The exception the constructor throws for these arguments, if any. The
      type is checked before the method name. */
  function ConstructorError(activationType: Option<TypeRef>, methodName: Option<string>): (e: Option<Exception>)
    ensures e.None? <==> activationType.Some? && !IsNullOrWhiteSpace(methodName)
    ensures activationType.None? ==> e == Some(ArgumentNullException("activationType", NullTypeMessage))
    ensures e.Some? && activationType.Some? ==> e.value.ArgumentException? && e.value.argumentName == Some("methodName")
  {
    if activationType.None? then Some(ArgumentNullException("activationType", NullTypeMessage))
    else if IsNullOrWhiteSpace(methodName) then Some(ArgumentException(BlankNameMessage, Some("methodName")))
    else None
  }

  /** An activation attribute. Kind stands for the concrete subclass
      (ApplicationStartupMethodAttribute or ApplicationExitMethodAttribute);
      ActivationType and MethodName have private setters that only the
      constructor uses, so they are constants here; Order is freely settable. */
  class ActivationMethodAttribute {
    const Kind: Phase
    const ActivationType: TypeRef
    const MethodName: string
    var Order: int32

    /** The assignments of the constructor, reached only through New once the
        arguments have passed validation. */
    constructor (kind: Phase, activationType: TypeRef, methodName: string)
      requires ConstructorError(Some(activationType), Some(methodName)).None?
      ensures Kind == kind && ActivationType == activationType && MethodName == methodName
      ensures Order == Int32MaxValue
    {
      Kind := kind;
      ActivationType := activationType;
      MethodName := methodName;
      Order := Int32MaxValue;
    }

    /** The constructor, with null written as None: it throws
        ArgumentNullException for a null type before looking at the name,
        throws ArgumentException for a null, empty or white-space name, and
        otherwise yields a new attribute ordered last. It does not look the
        method up. */
    static method New(kind: Phase, activationType: Option<TypeRef>, methodName: Option<string>)
      returns (r: Result<ActivationMethodAttribute, Exception>)
      ensures activationType.None? ==> r == Failure(ArgumentNullException("activationType", NullTypeMessage))
      ensures activationType.Some? && IsNullOrWhiteSpace(methodName) ==>
                r == Failure(ArgumentException(BlankNameMessage, Some("methodName")))
      ensures r.Success? <==> activationType.Some? && !IsNullOrWhiteSpace(methodName)
      ensures r.Success? ==>
                (fresh(r.value) && r.value.Kind == kind
                 && r.value.ActivationType == activationType.value && r.value.MethodName == methodName.value
                 && r.value.Order == Int32MaxValue)
    {
      var e := ConstructorError(activationType, methodName);
      if e.Some? {
        return Failure(e.value);
      }
      var a := new ActivationMethodAttribute(kind, activationType.value, methodName.value);
      return Success(a);
    }

    /** The Order setter. */
    method SetOrder(value: int32)
      modifies this`Order
      ensures Order == value
    {
      Order := value;
    }

    /** The static method this attribute names. */
    function Target(): MethodKey {
      MethodKey(ActivationType, MethodName)
    }

    function MissingMethodMessage(): string {
      "The type " + ActivationType.fullName + " does not have a static method named " + MethodName
    }

    /** How InvokeMethod ends when the process's static methods are `table`. */
    function InvocationResult(table: map<MethodKey, Completion>): (c: Completion)
      ensures Target() !in table ==> c == Threw(ArgumentException(MissingMethodMessage(), None))
      ensures Target() in table ==> c == table[Target()]
    {
      if Target() in table then table[Target()] else Threw(ArgumentException(MissingMethodMessage(), None))
    }

    /** InvokeMethod: looks the method up only now; when there is none it
        throws ArgumentException and calls nothing, otherwise it calls the
        method once and lets whatever it throws through. */
    method InvokeMethod(methods: StaticMethods) returns (c: Completion)
      modifies methods`Calls
      ensures methods.Calls == old(methods.Calls) + (if Target() in methods.Table then [Target()] else [])
      ensures c == InvocationResult(methods.Table)
    {
      if Target() !in methods.Table {
        return Threw(ArgumentException(MissingMethodMessage(), None));
      }
      c := methods.Invoke(Target());
    }
  }
}
