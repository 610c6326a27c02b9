/**
 * The interface profile records of the compiler (cipcc/interface.py),
 * as the parser builds and consults them.
 */
module Interfaces {
  /**
   * `Serializable.Type`. `Builtin` is the kind the parser gives its
   * built-in types; `Enum` and `Struct` are the declared ones.
   */
  datatype SerializableKind = Enum | Struct | Builtin

  /** `Serializable`: a type name as it appears in C++, and its kind. */
  datatype Serializable = Serializable(name: string, kind: SerializableKind)

  /** `Parameter`: a method parameter's name and its resolved type. */
  datatype Parameter = Parameter(name: string, paramType: string)

  /** `Method`: one signature of an interface method. */
  datatype Method = Method(name: string, returnType: string, parameters: seq<Parameter>)

  /** `Callback`. */
  datatype Callback = Callback(name: string, registerMethod: string, removeMethod: string)

  /** `Interface`: an addressable type with its methods and callbacks. */
  datatype Interface = Interface(name: string, methods: map<string, Method>, callbacks: map<string, Callback>)

  /** `Profile`: the serializable types and interfaces found so far, by name. */
  datatype Profile = Profile(serializableTypes: map<string, Serializable>, interfaces: map<string, Interface>)

  /** `Profile()`: nothing found yet. */
  const EmptyProfile := Profile(map[], map[])
}
