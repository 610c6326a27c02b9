/**
 * The overload expansion of `parse_methods` (cipcc/parser.py): a method
 * declared with default parameters stands for one signature per
 * defaulted parameter, holding the parameters before it, and the full
 * signature.
 */
module Overloads {
  import opened Interfaces

  /** `ParsedParam`: a parameter's name, resolved type, and whether it has a default. */
  datatype ParsedParam = ParsedParam(name: string, paramType: string, optional: bool)

  /** `','.join(str(param_.type) for param_ in params)`. */
  function JoinTypes(ps: seq<Parameter>): string {
    if |ps| == 0 then ""
    else if |ps| == 1 then ps[0].paramType
    else JoinTypes(ps[..|ps| - 1]) + [','] + ps[|ps| - 1].paramType
  }

  /** `create_signature_name(params)`: `name(types)cv`. */
  function SignatureName(name: string, ps: seq<Parameter>, cv: string): (s: string)
    ensures s == name + ['('] + JoinTypes(ps) + [')'] + cv
  {
    name + "(" + JoinTypes(ps) + ")" + cv
  }

  /** `Parameter(param.name, param.type)` for each parsed parameter. */
  function ToParameters(ps: seq<ParsedParam>): (r: seq<Parameter>)
    ensures |r| == |ps|
    ensures forall i | 0 <= i < |ps| :: r[i] == Parameter(ps[i].name, ps[i].paramType)
  {
    seq(|ps|, i requires 0 <= i < |ps| => Parameter(ps[i].name, ps[i].paramType))
  }

  /** The signature taking the given parameters. */
  function Signature(name: string, cv: string, returnType: string, ps: seq<ParsedParam>): Method {
    Method(SignatureName(name, ToParameters(ps), cv), returnType, ToParameters(ps))
  }

  /** The positions, in increasing order, of the defaulted parameters among the first n. */
  function OptionalPositions(ps: seq<ParsedParam>, n: nat): (pos: seq<nat>)
    requires n <= |ps|
    ensures forall j | 0 <= j < |pos| :: pos[j] < n && ps[pos[j]].optional
    ensures forall i | 0 <= i < n && ps[i].optional :: i in pos
    ensures forall j, j' | 0 <= j < j' < |pos| :: pos[j] < pos[j']
  {
    if n == 0 then [] else OptionalPositions(ps, n - 1) + (if ps[n - 1].optional then [n - 1] else [])
  }

  lemma ToParametersSnoc(ps: seq<ParsedParam>, i: nat)
    requires i < |ps|
    ensures ToParameters(ps[..i + 1]) == ToParameters(ps[..i]) + [Parameter(ps[i].name, ps[i].paramType)]
  {
  }

  /**
   * The loop over the parsed parameters: before a defaulted parameter the
   * signature of the parameters used so far is added, and after the loop
   * the full signature.
   */
  method ExpandOverloads(name: string, cv: string, returnType: string, parsed: seq<ParsedParam>)
    returns (signatures: seq<Method>)
    ensures var pos := OptionalPositions(parsed, |parsed|);
      |signatures| == |pos| + 1
      && (forall j | 0 <= j < |pos| :: signatures[j] == Signature(name, cv, returnType, parsed[..pos[j]]))
      && signatures[|pos|] == Signature(name, cv, returnType, parsed)
  {
    signatures := [];
    var usedParams: seq<Parameter> := [];
    for i := 0 to |parsed|
      invariant usedParams == ToParameters(parsed[..i])
      invariant var pos := OptionalPositions(parsed, i);
        |signatures| == |pos|
        && forall j | 0 <= j < |pos| :: signatures[j] == Signature(name, cv, returnType, parsed[..pos[j]])
    {
      var param := parsed[i];
      if param.optional {
        signatures := signatures + [Method(SignatureName(name, usedParams, cv), returnType, usedParams)];
      }
      ToParametersSnoc(parsed, i);
      usedParams := usedParams + [Parameter(param.name, param.paramType)];
    }
    assert parsed[..|parsed|] == parsed;
    signatures := signatures + [Method(SignatureName(name, usedParams, cv), returnType, usedParams)];
  }

  /**
   * The signatures' parameter lists are prefixes of the full list, each
   * longer than the one before.
   */
  lemma SignaturesGrow(parsed: seq<ParsedParam>)
    ensures var pos := OptionalPositions(parsed, |parsed|);
      forall j | 0 <= j < |pos| ::
        pos[j] < |parsed| && ToParameters(parsed[..pos[j]]) == ToParameters(parsed)[..pos[j]]
        && (j + 1 < |pos| ==> pos[j] < pos[j + 1])
  {
  }

  /** A declaration without defaults has the one full signature. */
  lemma NoDefaultsOneSignature(parsed: seq<ParsedParam>)
    requires forall i | 0 <= i < |parsed| :: !parsed[i].optional
    ensures OptionalPositions(parsed, |parsed|) == []
  {
  }

  /** `void f(int a, int b = 1)` gives `f(int)` and `f(int,int)`. */
  lemma OneDefaultExample()
    ensures var parsed := [ParsedParam("a", "int", false), ParsedParam("b", "int", true)];
      OptionalPositions(parsed, 2) == [1]
      && Signature("f", "", "void", parsed[..1]).name == "f(int)"
      && Signature("f", "", "void", parsed).name == "f(int,int)"
  {
    var parsed := [ParsedParam("a", "int", false), ParsedParam("b", "int", true)];
    assert ToParameters(parsed[..1]) == [Parameter("a", "int")];
    assert ToParameters(parsed) == [Parameter("a", "int"), Parameter("b", "int")];
    assert ToParameters(parsed)[..1] == [Parameter("a", "int")];
  }
}
