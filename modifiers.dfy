/**
 * `parse_tokens` of `parse_type_modifiers` (cipcc/parser.py): the
 * pointer and reference tokens of a declaration, each with the `const`
 * and `volatile` written after it, then the base type with those written
 * before the first of them.
 */
module TypeModifiers {
  /** A token of `MODIFIER_PATTERN`: `*`, `&`, `const` or `volatile`. */
  datatype Token = Pointer | Reference | Const | Volatile

  predicate IsRef(t: Token) {
    t.Pointer? || t.Reference?
  }

  /** The token's text, for `*` and `&`. */
  function RefText(t: Token): string {
    if t.Pointer? then "*" else if t.Reference? then "&" else ""
  }

  /** `TypeRef(type, is_const, is_volatile)`. */
  datatype TypeRef = TypeRef(refType: string, isConst: bool, isVolatile: bool)

  /** Some token in [lo, hi) is q. */
  predicate Has(tokens: seq<Token>, q: Token, lo: nat, hi: nat)
    requires lo <= hi <= |tokens|
    decreases hi - lo
  {
    lo < hi && (tokens[lo] == q || Has(tokens, q, lo + 1, hi))
  }

  /** The first `*` or `&` at or after position i, or the end. */
  function NextRef(tokens: seq<Token>, i: nat): (n: nat)
    requires i <= |tokens|
    ensures i <= n <= |tokens| && (n < |tokens| ==> IsRef(tokens[n]))
    ensures forall k | i <= k < n :: !IsRef(tokens[k])
    decreases |tokens| - i
  {
    if i == |tokens| || IsRef(tokens[i]) then i else NextRef(tokens, i + 1)
  }

  /** The qualifiers written from position lo up to the next `*` or `&`. */
  function Qualified(tokens: seq<Token>, refType: string, lo: nat): TypeRef
    requires lo <= |tokens|
  {
    var hi := NextRef(tokens, lo);
    TypeRef(refType, Has(tokens, Const, lo, hi), Has(tokens, Volatile, lo, hi))
  }

  /** The positions of the `*` and `&` tokens at or after i, last first. */
  function RefsFrom(tokens: seq<Token>, i: nat): (ps: seq<nat>)
    requires i <= |tokens|
    ensures forall j | 0 <= j < |ps| :: i <= ps[j] < |tokens| && IsRef(tokens[ps[j]])
    decreases |tokens| - i
  {
    if i == |tokens| then [] else RefsFrom(tokens, i + 1) + (if IsRef(tokens[i]) then [i] else [])
  }

  /** The entry for the `*` or `&` at position p. */
  function RefEntry(tokens: seq<Token>, p: nat): TypeRef
    requires p < |tokens|
  {
    Qualified(tokens, RefText(tokens[p]), p + 1)
  }

  /**
   * The tokens after position i, read from the last towards the first:
   * `refs` holds an entry per `*` and `&` seen, and `isConst` and
   * `isVolatile` the qualifiers seen since the last of them.
   */
  ghost predicate ScannedFrom(tokens: seq<Token>, i: nat, refs: seq<TypeRef>, isConst: bool, isVolatile: bool)
    requires i <= |tokens|
  {
    var ps := RefsFrom(tokens, i);
    |refs| == |ps|
    && (forall j | 0 <= j < |ps| :: refs[j] == RefEntry(tokens, ps[j]))
    && isConst == Has(tokens, Const, i, NextRef(tokens, i))
    && isVolatile == Has(tokens, Volatile, i, NextRef(tokens, i))
  }

  /** `parse_tokens(tokens)`. */
  method ParseTokens(tokens: seq<Token>) returns (refs: seq<TypeRef>)
    ensures var ps := RefsFrom(tokens, 0);
      |refs| == |ps| + 1
      && (forall j | 0 <= j < |ps| :: refs[j] == RefEntry(tokens, ps[j]))
      && refs[|ps|] == Qualified(tokens, "", 0)
  {
    refs := [];
    var isConst, isVolatile := false, false;
    var i := |tokens|;
    while i > 0
      invariant 0 <= i <= |tokens|
      invariant ScannedFrom(tokens, i, refs, isConst, isVolatile)
      decreases i
    {
      i := i - 1;
      var token := tokens[i];
      if token == Const {
        isConst := true;
      } else if token == Volatile {
        isVolatile := true;
      } else {
        refs := refs + [TypeRef(RefText(token), isConst, isVolatile)];
        isConst, isVolatile := false, false;
      }
    }
    refs := refs + [TypeRef("", isConst, isVolatile)];
  }

  /** A qualifier after a `*` or `&` belongs to it, before the next one. */
  lemma QualifierAfterRef(tokens: seq<Token>, p: nat, q: nat)
    requires p < q < |tokens| && IsRef(tokens[p]) && tokens[q] == Const
    requires forall k | p < k < q :: !IsRef(tokens[k])
    ensures RefEntry(tokens, p).isConst
  {
    HasWitness(tokens, Const, p + 1, NextRef(tokens, p + 1), q);
  }

  /** A qualifier before every `*` and `&` belongs to the base type. */
  lemma QualifierBeforeRefs(tokens: seq<Token>, q: nat)
    requires q < |tokens| && tokens[q] == Volatile
    requires forall k | 0 <= k < q :: !IsRef(tokens[k])
    ensures Qualified(tokens, "", 0).isVolatile
  {
    HasWitness(tokens, Volatile, 0, NextRef(tokens, 0), q);
  }

  lemma {:induction false} HasWitness(tokens: seq<Token>, t: Token, lo: nat, hi: nat, k: nat)
    requires lo <= k < hi <= |tokens| && tokens[k] == t
    ensures Has(tokens, t, lo, hi)
    decreases k - lo
  {
    if lo < k {
      HasWitness(tokens, t, lo + 1, hi, k);
    }
  }

  /** `const int* const`: each `const` goes to the entry on its left. */
  lemma ConstPointerToConst()
    ensures var tokens := [Const, Pointer, Const];
      RefsFrom(tokens, 0) == [1]
      && RefEntry(tokens, 1) == TypeRef("*", true, false)
      && Qualified(tokens, "", 0) == TypeRef("", true, false)
  {
    var tokens := [Const, Pointer, Const];
    assert RefsFrom(tokens, 2) == [];
    assert NextRef(tokens, 2) == 3;
    assert NextRef(tokens, 0) == 1;
  }
}
