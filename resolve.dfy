/**
 * `resolve_type` (cipcc/parser.py): a type name as written inside a
 * namespace is looked up as `ns::name`, then with the innermost
 * namespace component dropped, and so on out to the root.
 */
module TypeResolution {
  import opened Wrappers
  import opened Interfaces

  /** The separator of namespace components. */
  const Sep: string := "::"

  predicate StartsWith(s: string, prefix: string) {
    |prefix| <= |s| && s[..|prefix|] == prefix
  }

  /** An occurrence of `::` starts at position k. */
  predicate SepAt(s: string, k: nat) {
    k + 2 <= |s| && s[k] == ':' && s[k + 1] == ':'
  }

  /** The first occurrence of `::` at or after position i. */
  function FindSep(s: string, i: nat): (r: Option<nat>)
    requires i <= |s|
    ensures r.Some? ==> i <= r.value && SepAt(s, r.value)
    ensures r.Some? ==> forall k | i <= k < r.value :: !SepAt(s, k)
    ensures r.None? ==> forall k | i <= k <= |s| :: !SepAt(s, k)
    decreases |s| - i
  {
    if i + 2 > |s| then None
    else if SepAt(s, i) then Some(i)
    else FindSep(s, i + 1)
  }

  /** `s.split('::')`: the pieces between the occurrences of `::`, left to right. */
  function Split(s: string): (parts: seq<string>)
    ensures |parts| >= 1
    decreases |s|
  {
    match FindSep(s, 0)
    case None => [s]
    case Some(i) => [s[..i]] + Split(s[i + 2..])
  }

  /** `'::'.join(parts)`. */
  function Join(parts: seq<string>): string {
    if |parts| == 0 then ""
    else if |parts| == 1 then parts[0]
    else parts[0] + Sep + Join(parts[1..])
  }

  /** Joining the pieces of a split gives back the text. */
  lemma {:induction false} JoinSplit(s: string)
    ensures Join(Split(s)) == s
    decreases |s|
  {
    match FindSep(s, 0)
    case None =>
    case Some(i) =>
      JoinSplit(s[i + 2..]);
      assert s[i..i + 2] == Sep;
      assert s == s[..i] + Sep + s[i + 2..];
  }

  /** `::` between two joins. */
  lemma {:induction false} JoinAppend(a: seq<string>, b: seq<string>)
    requires |a| >= 1 && |b| >= 1
    ensures Join(a + b) == Join(a) + Sep + Join(b)
    decreases |a|
  {
    if |a| == 1 {
      assert (a + b)[1..] == b;
    } else {
      assert (a + b)[1..] == a[1..] + b;
      JoinAppend(a[1..], b);
    }
  }

  /** The name looked up in the scope given by the first namespace components. */
  function Scoped(parts: seq<string>, name: string): string {
    Join(parts + [name])
  }

  /** The innermost candidate is `ns::name` and the outermost the bare name. */
  lemma ScopedEnds(ns: string, name: string)
    ensures Scoped(Split(ns), name) == ns + Sep + name
    ensures Scoped([], name) == name
  {
    JoinSplit(ns);
    JoinAppend(Split(ns), [name]);
    assert [] + [name] == [name];
  }

  /** `_get_builtin_types()`: the fixed-width integer names, with and without `std::`. */
  const FixedWidthInts: seq<string> := [
    "uint8_t", "int8_t", "uint16_t", "int16_t", "uint32_t", "int32_t", "uint64_t", "int64_t"]

  /** `_BUILTIN_TYPE_NAMES`. */
  const BuiltinTypeNames: seq<string> := [
    "int", "float", "double", "size_t", "std::size_t", "std::string",
    "std::deque", "std::list", "std::vector", "std::map", "std::unordered_map"]

  /**
   * `BUILTIN_TYPES[n]`: an `intN_t` name with or without `std::` stands
   * for the `std::` one; every other built-in name stands for itself.
   */
  function BuiltinType(n: string): (r: Option<Serializable>)
    ensures r.Some? ==> r.value.kind == Builtin
  {
    if n in FixedWidthInts then Some(Serializable("std::" + n, Builtin))
    else if StartsWith(n, "std::") && n[5..] in FixedWidthInts then Some(Serializable(n, Builtin))
    else if n in BuiltinTypeNames then Some(Serializable(n, Builtin))
    else None
  }

  /** `UNSUPPORTED_INTS`. */
  const UnsupportedInts: set<string> := {"char", "long", "short"}

  /** `UNIMPLEMENTED_COLLECTIONS`. */
  const UnimplementedCollections: set<string> := {
    "std::array", "std::forward_list", "std::stack", "std::queue", "std::priority_queue",
    "std::flat_set", "std::flat_map", "std::flat_multiset", "std::flat_multimap"}

  /** What a name resolves to: a serializable type or an interface. */
  datatype Resolved = SerializableType(s: Serializable) | InterfaceType(i: Interface)

  /**
   * One round's lookup of a qualified name: the built-in types first,
   * then the profile's serializable types, then its interfaces.
   */
  function Lookup(profile: Profile, checked: string): (r: Option<Resolved>)
    ensures r.Some? <==>
      BuiltinType(checked).Some? || checked in profile.serializableTypes || checked in profile.interfaces
    ensures BuiltinType(checked).Some? ==> r == Some(SerializableType(BuiltinType(checked).value))
    ensures BuiltinType(checked).None? && checked in profile.serializableTypes ==>
      r == Some(SerializableType(profile.serializableTypes[checked]))
    ensures BuiltinType(checked).None? && checked !in profile.serializableTypes && checked in profile.interfaces ==>
      r == Some(InterfaceType(profile.interfaces[checked]))
  {
    match BuiltinType(checked)
    case Some(s) => Some(SerializableType(s))
    case None =>
      if checked in profile.serializableTypes then Some(SerializableType(profile.serializableTypes[checked]))
      else if checked in profile.interfaces then Some(InterfaceType(profile.interfaces[checked]))
      else None
  }

  /** `InvalidTypeError`, by the three messages it is raised with. */
  datatype TypeError =
    | UnsupportedInt(name: string)
    | UnimplementedCollection(name: string)
    | Unresolved(name: string, scope: string)

  /** The namespace components searched: none for a name written with a leading `::`. */
  function SearchParts(name: string, ns: string): seq<string> {
    if StartsWith(name, Sep) then [] else Split(ns)
  }

  /** The name searched for, without a leading `::`. */
  function BaseName(name: string): string {
    if StartsWith(name, Sep) then name[2..] else name
  }

  /** The error raised once even the root scope does not know the name. */
  function NotFound(base: string, ns: string): TypeError {
    if base in UnsupportedInts then UnsupportedInt(base)
    else if base in UnimplementedCollections then UnimplementedCollection(base)
    else Unresolved(base, if ns == "" then "(root)" else ns)
  }

  /**
   * `resolve_type(name, profile, ns)`: the lookup's result for the
   * innermost scope that knows the name, or the error for a name no
   * scope knows.
   */
  method ResolveType(name: string, profile: Profile, ns: string) returns (r: Result<Resolved, TypeError>)
    ensures var parts, base := SearchParts(name, ns), BaseName(name);
      r.Success? ==>
        (exists k | 0 <= k <= |parts| ::
          Lookup(profile, Scoped(parts[..k], base)) == Some(r.value)
          && forall k' | k < k' <= |parts| :: Lookup(profile, Scoped(parts[..k'], base)).None?)
    ensures var parts, base := SearchParts(name, ns), BaseName(name);
      r.Failure? ==>
        (forall k | 0 <= k <= |parts| :: Lookup(profile, Scoped(parts[..k], base)).None?)
        && r.error == NotFound(base, ns)
  {
    ghost var parts := SearchParts(name, ns);
    var nsParts := Split(ns);
    var base := name;
    if StartsWith(name, Sep) {
      nsParts := [];
      base := name[2..];
    }
    while true
      invariant |nsParts| <= |parts| && nsParts == parts[..|nsParts|]
      invariant forall k' | |nsParts| < k' <= |parts| :: Lookup(profile, Scoped(parts[..k'], base)).None?
      decreases |nsParts|
    {
      var checked := Join(nsParts + [base]);
      var found := Lookup(profile, checked);
      if found.Some? {
        return Success(found.value);
      }
      if nsParts == [] {
        return Failure(NotFound(base, ns));
      }
      nsParts := nsParts[..|nsParts| - 1];
    }
  }

  /** A name written with a leading `::` is looked up in the root scope alone. */
  lemma RootNameSearchesRootOnly(name: string, ns: string)
    requires StartsWith(name, Sep)
    ensures SearchParts(name, ns) == [] && BaseName(name) == name[2..]
    ensures Scoped(SearchParts(name, ns), BaseName(name)) == name[2..]
  {
  }

  /** A built-in name resolves to the built-in when no inner scope declares it. */
  lemma BuiltinsAtRoot(profile: Profile, n: string)
    requires BuiltinType(n).Some?
    ensures Lookup(profile, Scoped([], n)) == Some(SerializableType(BuiltinType(n).value))
  {
    assert Scoped([], n) == n;
  }

  /** `int32_t` and `std::int32_t` are both `std::int32_t`. */
  lemma FixedWidthAliases()
    ensures BuiltinType("int32_t") == Some(Serializable("std::int32_t", Builtin))
    ensures BuiltinType("std::int32_t") == Some(Serializable("std::int32_t", Builtin))
  {
    assert FixedWidthInts[5] == "int32_t";
    assert "std::" + "int32_t" == "std::int32_t";
    assert |"std::int32_t"| == 12;
    assert "std::int32_t" !in FixedWidthInts;
    assert "std::int32_t"[5..] == "int32_t";
  }
}
