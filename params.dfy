/**
 * `split_params` (cipcc/parser.py): a method's parameter text split at
 * the commas outside angle brackets, each piece stripped of whitespace.
 */
module ParamSplit {
  import opened Wrappers

  /** The characters `str.isspace()` accepts, which `str.strip()` removes. */
  predicate IsSpace(c: char) {
    c == ' ' || '\t' <= c <= '\r' || '\U{1c}' <= c <= '\U{1f}' || c == '\U{85}' || c == '\U{a0}'
    || c == '\U{1680}' || '\U{2000}' <= c <= '\U{200a}' || c == '\U{2028}' || c == '\U{2029}'
    || c == '\U{202f}' || c == '\U{205f}' || c == '\U{3000}'
  }

  function StripLeft(s: string): (r: string)
    ensures |r| <= |s| && r == s[|s| - |r|..]
    ensures forall k | 0 <= k < |s| - |r| :: IsSpace(s[k])
    ensures r == [] || !IsSpace(r[0])
  {
    if |s| > 0 && IsSpace(s[0]) then StripLeft(s[1..]) else s
  }

  function StripRight(s: string): (r: string)
    ensures |r| <= |s| && r == s[..|r|]
    ensures forall k | |r| <= k < |s| :: IsSpace(s[k])
    ensures r == [] || !IsSpace(r[|r| - 1])
  {
    if |s| > 0 && IsSpace(s[|s| - 1]) then StripRight(s[..|s| - 1]) else s
  }

  /** `str.strip()`. */
  function Strip(s: string): (r: string)
    ensures r == [] || (!IsSpace(r[0]) && !IsSpace(r[|r| - 1]))
  {
    StripRight(StripLeft(s))
  }

  /** Strip keeps a slice of s and removes only whitespace around it. */
  lemma StripIsSlice(s: string) returns (i: nat, j: nat)
    ensures i <= j <= |s| && Strip(s) == s[i..j]
    ensures forall k | 0 <= k < i :: IsSpace(s[k])
    ensures forall k | j <= k < |s| :: IsSpace(s[k])
  {
    var l := StripLeft(s);
    i := |s| - |l|;
    j := i + |StripRight(l)|;
    assert Strip(s) == l[..j - i];
    assert l[..j - i] == s[i..j];
    forall k | j <= k < |s|
      ensures IsSpace(s[k])
    {
      assert s[k] == l[k - i];
    }
  }

  /** The change `<` and `>` make to the angle-bracket depth. */
  function Delta(c: char): int {
    if c == '<' then 1 else if c == '>' then -1 else 0
  }

  /** The angle-bracket depth after s: its `<` less its `>`. */
  function Depth(s: string): int {
    if |s| == 0 then 0 else Depth(s[..|s| - 1]) + Delta(s[|s| - 1])
  }

  /** Depth adds up over a concatenation. */
  lemma {:induction false} DepthConcat(a: string, b: string)
    ensures Depth(a + b) == Depth(a) + Depth(b)
    decreases |b|
  {
    if |b| > 0 {
      var b' := b[..|b| - 1];
      assert (a + b)[..|a + b| - 1] == a + b';
      DepthConcat(a, b');
    } else {
      assert a + b == a;
    }
  }

  /**
   * The text is well bracketed: every `>` closes an open `<`, and no
   * `<` is left open at the end.
   */
  predicate Balanced(text: string) {
    (forall i | 0 <= i < |text| && text[i] == '>' :: Depth(text[..i]) > 0) && Depth(text) == 0
  }

  /** Position j holds a comma outside every pair of angle brackets. */
  predicate TopComma(t: string, j: nat)
    requires j < |t|
  {
    t[j] == ',' && Depth(t[..j]) == 0
  }

  /** The last top-level comma before position n. */
  function LastTopComma(t: string, n: nat): (r: Option<nat>)
    requires n <= |t|
    ensures r.Some? ==> r.value < n && TopComma(t, r.value)
    ensures r.Some? ==> forall k | r.value < k < n :: !TopComma(t, k)
    ensures r.None? ==> forall k | 0 <= k < n :: !TopComma(t, k)
  {
    if n == 0 then None
    else if TopComma(t, n - 1) then Some(n - 1)
    else LastTopComma(t, n - 1)
  }

  /**
   * The pieces between the top-level commas, unstripped: joined back
   * with commas they give the text.
   */
  function RawPieces(t: string): (ps: seq<string>)
    ensures |ps| >= 1
    decreases |t|
  {
    match LastTopComma(t, |t|)
    case None => [t]
    case Some(j) => RawPieces(t[..j]) + [t[j + 1..]]
  }

  /** Only the positions before the end decide the last top-level comma before it. */
  lemma {:induction false} LastTopCommaOfPrefix(t: string, u: string, n: nat)
    requires n <= |t| <= |u| && t == u[..|t|]
    ensures LastTopComma(u, n) == LastTopComma(t, n)
  {
    if n > 0 {
      assert u[..n - 1] == t[..n - 1];
      LastTopCommaOfPrefix(t, u, n - 1);
    }
  }

  /** One more character either opens a new piece or extends the last one. */
  lemma RawPiecesSnoc(t: string, c: char)
    ensures c == ',' && Depth(t) == 0 ==> RawPieces(t + [c]) == RawPieces(t) + [[]]
    ensures !(c == ',' && Depth(t) == 0) ==>
      var ps := RawPieces(t);
      RawPieces(t + [c]) == ps[..|ps| - 1] + [ps[|ps| - 1] + [c]]
  {
    var u := t + [c];
    assert u[..|t|] == t;
    if c == ',' && Depth(t) == 0 {
      assert TopComma(u, |t|);
      assert u[|t| + 1..] == [];
    } else {
      assert !TopComma(u, |t|);
      LastTopCommaOfPrefix(t, u, |t|);
      match LastTopComma(t, |t|)
      case None =>
      case Some(j) =>
        assert u[..j] == t[..j];
        assert u[j + 1..] == t[j + 1..] + [c];
    }
  }

  /** A comma-joined list of pieces. */
  function JoinCommas(ps: seq<string>): string
    requires |ps| >= 1
  {
    if |ps| == 1 then ps[0] else JoinCommas(ps[..|ps| - 1]) + [','] + ps[|ps| - 1]
  }

  /** The raw pieces joined with commas give back the text. */
  lemma {:induction false} JoinRawPieces(t: string)
    ensures JoinCommas(RawPieces(t)) == t
    decreases |t|
  {
    match LastTopComma(t, |t|)
    case None =>
    case Some(j) =>
      var ps := RawPieces(t);
      assert ps[..|ps| - 1] == RawPieces(t[..j]);
      JoinRawPieces(t[..j]);
      assert t == t[..j] + [','] + t[j + 1..];
  }

  /** No raw piece holds a comma outside its own angle brackets. */
  lemma {:induction false} RawPiecesHaveNoTopComma(t: string)
    ensures forall p, k | p in RawPieces(t) && 0 <= k < |p| :: !TopComma(p, k)
    decreases |t|
  {
    match LastTopComma(t, |t|)
    case None =>
    case Some(j) =>
      RawPiecesHaveNoTopComma(t[..j]);
      var p := t[j + 1..];
      assert Depth(t[..j + 1]) == 0 by {
        assert t[..j + 1][..j] == t[..j];
      }
      forall k | 0 <= k < |p|
        ensures !TopComma(p, k)
      {
        assert t[..j + 1 + k] == t[..j + 1] + p[..k];
        DepthConcat(t[..j + 1], p[..k]);
        assert !TopComma(t, j + 1 + k);
      }
  }

  /** Each piece stripped. */
  function StripAll(ps: seq<string>): (r: seq<string>)
    ensures |r| == |ps| && forall k | 0 <= k < |ps| :: r[k] == Strip(ps[k])
  {
    seq(|ps|, k requires 0 <= k < |ps| => Strip(ps[k]))
  }

  lemma StripAllSnoc(ps: seq<string>, p: string)
    ensures StripAll(ps + [p]) == StripAll(ps) + [Strip(p)]
  {
    var l, r := StripAll(ps + [p]), StripAll(ps) + [Strip(p)];
    forall k | 0 <= k < |l|
      ensures l[k] == r[k]
    {
      if k < |ps| {
        assert (ps + [p])[k] == ps[k];
      }
    }
  }

  /**
   * The result for well-bracketed text: every raw piece stripped, except
   * that an empty last piece is dropped (`if param:`).
   */
  function SplitResult(text: string): seq<string> {
    var ps := RawPieces(text);
    if ps[|ps| - 1] == [] then StripAll(ps[..|ps| - 1]) else StripAll(ps)
  }

  /** Empty text gives no parameters. */
  lemma SplitOfEmpty()
    ensures Balanced("") && SplitResult("") == []
  {
    assert RawPieces("") == [""];
  }

  /** `InvalidMethodDeclaration`: mismatched angle brackets in the text. */
  datatype SplitError = MismatchedAngleBrackets(text: string)

  /**
   * The scan after the first i characters: `depth` is their bracket
   * depth, no `>` so far was unmatched, `param` is the piece being read
   * and `params` the stripped pieces before it.
   */
  ghost predicate ScanState(text: string, i: nat, params: seq<string>, param: string, depth: int, raw: seq<string>) {
    i <= |text| && depth == Depth(text[..i]) && depth >= 0
    && (forall k | 0 <= k < i && text[k] == '>' :: Depth(text[..k]) > 0)
    && RawPieces(text[..i]) == raw + [param]
    && params == StripAll(raw)
  }

  /** One iteration of the scan: character i joins the piece or ends it. */
  method ScanChar(text: string, i: nat, params: seq<string>, param: string, depth: int, ghost raw: seq<string>)
    returns (ok: bool, params': seq<string>, param': string, depth': int, ghost raw': seq<string>)
    requires i < |text| && ScanState(text, i, params, param, depth, raw)
    ensures ok ==> ScanState(text, i + 1, params', param', depth', raw')
    ensures !ok ==> !Balanced(text)
  {
    var c := text[i];
    assert text[..i + 1] == text[..i] + [c];
    assert Depth(text[..i + 1]) == depth + Delta(c) by {
      assert text[..i + 1][..i] == text[..i];
    }
    RawPiecesSnoc(text[..i], c);
    ghost var ps := raw + [param];
    assert ps[..|ps| - 1] == raw && ps[|ps| - 1] == param;
    ok, params', param', depth', raw' := true, params, param, depth, raw;
    if c == ',' && depth == 0 {
      StripAllSnoc(raw, param);
      params' := params + [Strip(param)];
      raw' := raw + [param];
      param' := "";
    } else {
      if c == '<' {
        depth' := depth + 1;
      } else if c == '>' {
        if depth <= 0 {
          assert text[i] == '>' && Depth(text[..i]) <= 0;
          return false, params, param, depth, raw;
        }
        depth' := depth - 1;
      }
      param' := param + [c];
    }
  }

  /** `split_params(text)`. */
  method SplitParams(text: string) returns (r: Result<seq<string>, SplitError>)
    ensures r.Success? <==> Balanced(text)
    ensures r.Success? ==> r.value == SplitResult(text)
    ensures r.Failure? ==> r.error == MismatchedAngleBrackets(text)
  {
    var params: seq<string> := [];
    var param: string := "";
    var depth := 0;
    ghost var raw: seq<string> := [];
    for i := 0 to |text|
      invariant ScanState(text, i, params, param, depth, raw)
    {
      var ok;
      ok, params, param, depth, raw := ScanChar(text, i, params, param, depth, raw);
      if !ok {
        return Failure(MismatchedAngleBrackets(text));
      }
    }
    assert text[..|text|] == text;
    if depth > 0 {
      return Failure(MismatchedAngleBrackets(text));
    }
    if param != "" {
      StripAllSnoc(raw, param);
      params := params + [Strip(param)];
    } else {
      assert raw == RawPieces(text)[..|RawPieces(text)| - 1];
    }
    return Success(params);
  }
}
