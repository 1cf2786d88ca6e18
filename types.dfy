// Values shared by the whole activation model: the .NET notions the activator
// touches (nullable references, 32-bit order numbers, exceptions, reflection
// keys) written as plain Dafny datatypes.
module Types {

  /** A reference that may be null. */
  datatype Option<T> = None | Some(value: T)

  /** The outcome of an operation that either produces a value or throws. */
  datatype Result<T, E> = Success(value: T) | Failure(error: E)

  /** System.Int32, the type of the attribute's Order property. */
  newtype int32 = x: int | -0x8000_0000 <= x < 0x8000_0000

  /** int.MaxValue: the order an attribute gets when none is specified. */
  const Int32MaxValue: int32 := 0x7fff_ffff

  /** The two concrete attribute classes: ApplicationStartupMethodAttribute
      and ApplicationExitMethodAttribute. Each class is one lifecycle phase. */
  datatype Phase = Startup | Exit

  /** A System.Type, identified by its full name. */
  datatype TypeRef = TypeRef(fullName: string)

  /** A static method as reflection finds it: the declaring type and the name. */
  datatype MethodKey = MethodKey(declaringType: TypeRef, name: string)

  /** The exceptions the activator throws, swallows or lets through. */
  datatype Exception =
    | ArgumentNullException(paramName: string, message: string)
    | ArgumentException(message: string, argumentName: Option<string>)
    | FileNotFoundException(fileName: string)
    | FileLoadException(fileName: string)
    | BadImageFormatException(fileName: string)
    | OtherException(description: string)

  /** How a statement ends: normally, or by throwing. */
  datatype Completion = Normal | Threw(exception: Exception)
}
