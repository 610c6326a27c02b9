/**
 * `find_parse_order` (cipcc/parser.py): the order in which to parse
 * headers so that each comes after the headers it includes.
 *
 * A header is any value that can be compared; the include map sends
 * each header to the set of headers it includes directly.
 */
module ParseOrder {
  import opened Wrappers

  /** Every include is itself a header of the map (the source asserts this). */
  ghost predicate Closed<H>(includes: map<H, set<H>>) {
    forall h | h in includes :: includes[h] <= includes.Keys
  }

  /** No header appears twice. */
  ghost predicate Distinct<H>(s: seq<H>) {
    forall i, j | 0 <= i < j < |s| :: s[i] != s[j]
  }

  /** Each listed header is a header of the map and comes after all its includes. */
  ghost predicate AfterIncludes<H>(includes: map<H, set<H>>, ordering: seq<H>) {
    forall i | 0 <= i < |ordering| ::
      ordering[i] in includes && forall d | d in includes[ordering[i]] :: d in ordering[..i]
  }

  /** The headers listed. */
  ghost function Elems<H>(s: seq<H>): set<H> {
    set x | x in s
  }

  /**
   * Appending a header that is not yet listed and whose includes all are
   * keeps the ordering free of repeats and in include order.
   */
  lemma AppendSorted<H>(includes: map<H, set<H>>, ordering: seq<H>, h: H)
    requires Distinct(ordering) && AfterIncludes(includes, ordering)
    requires h in includes && h !in Elems(ordering) && includes[h] <= Elems(ordering)
    ensures Distinct(ordering + [h]) && AfterIncludes(includes, ordering + [h])
    ensures Elems(ordering + [h]) == Elems(ordering) + {h}
  {
    var o := ordering + [h];
    assert o[..|ordering|] == ordering;
    forall i | 0 <= i < |o|
      ensures o[i] in includes && forall d | d in includes[o[i]] :: d in o[..i]
    {
      if i < |ordering| {
        assert o[..i] == ordering[..i];
      }
    }
  }

  /** Every header exactly once, each after the headers it includes. */
  ghost predicate IsParseOrder<H>(includes: map<H, set<H>>, ordering: seq<H>) {
    Distinct(ordering)
    && (forall h | h in includes :: h in ordering)
    && AfterIncludes(includes, ordering)
  }

  /**
   * A non-empty set of headers each of which includes one of them: the
   * headers lie on or behind include cycles.
   */
  ghost predicate Circular<H>(includes: map<H, set<H>>, s: set<H>) {
    s != {} && s <= includes.Keys && forall h | h in s :: includes[h] * s != {}
  }

  /** The first position of the ordering that holds a member of s. */
  lemma FirstMember<H>(ordering: seq<H>, s: set<H>, x: H) returns (i: nat)
    requires x in s && x in ordering
    ensures i < |ordering| && ordering[i] in s
    ensures forall j | 0 <= j < i :: ordering[j] !in s
  {
    i := 0;
    while ordering[i] !in s
      invariant i < |ordering| && x in ordering[i..]
      invariant forall j | 0 <= j < i :: ordering[j] !in s
      decreases |ordering| - i
    {
      i := i + 1;
    }
  }

  /** Headers on an include cycle admit no parse order. */
  lemma CircularHasNoParseOrder<H>(includes: map<H, set<H>>, s: set<H>, ordering: seq<H>)
    requires Circular(includes, s)
    ensures !IsParseOrder(includes, ordering)
  {
    if forall h | h in includes :: h in ordering {
      var x :| x in s;
      var i := FirstMember(ordering, s, x);
      var d :| d in includes[ordering[i]] * s;
      assert d !in ordering[..i];
      assert !AfterIncludes(includes, ordering);
    }
  }

  /** The cardinality of a set drops when a common member is taken out. */
  lemma RemoveShrinks<H>(a: set<H>, b: set<H>, x: H)
    requires x in a && x in b
    ensures |a - b| < |a|
  {
    assert a - b <= a - {x};
    SubsetCard(a - b, a - {x});
  }

  lemma {:induction false} SubsetCard<H>(a: set<H>, b: set<H>)
    requires a <= b
    ensures |a| <= |b|
    decreases |b|
  {
    if a != {} {
      var y :| y in a;
      SubsetCard(a - {y}, b - {y});
    }
  }

  /**
   * One pass of the loop (`for header in unsorted_headers`): every
   * unsorted header is visited, in an order the source leaves to the
   * set, and one whose includes are all sorted by then is appended.
   */
  method Pass<H(==)>(includes: map<H, set<H>>, unsorted: set<H>, sorted: set<H>, ordering: seq<H>)
    returns (madeProgress: bool, sorted': set<H>, ordering': seq<H>)
    requires Closed(includes) && sorted <= includes.Keys && unsorted == includes.Keys - sorted
    requires Distinct(ordering) && sorted == Elems(ordering)
    requires AfterIncludes(includes, ordering)
    ensures sorted <= sorted' <= includes.Keys
    ensures Distinct(ordering') && sorted' == Elems(ordering')
    ensures AfterIncludes(includes, ordering')
    ensures madeProgress <==> sorted' != sorted
    ensures !madeProgress ==> forall h | h in unsorted :: !(includes[h] <= sorted)
  {
    madeProgress, sorted', ordering' := false, sorted, ordering;
    var pending := unsorted;
    while pending != {}
      invariant pending <= unsorted
      invariant sorted <= sorted' <= includes.Keys
      invariant sorted' - sorted <= unsorted - pending
      invariant Distinct(ordering') && sorted' == Elems(ordering')
      invariant AfterIncludes(includes, ordering')
      invariant madeProgress <==> sorted' != sorted
      invariant !madeProgress ==> forall h | h in unsorted - pending :: !(includes[h] <= sorted)
      decreases |pending|
    {
      var header :| header in pending;
      pending := pending - {header};
      if includes[header] <= sorted' {
        AppendSorted(includes, ordering', header);
        ordering' := ordering' + [header];
        sorted' := sorted' + {header};
        madeProgress := true;
      }
    }
  }

  /**
   * `find_parse_order(include_map)`: a parse order of all the headers,
   * or `CircularIncludeError` with the headers still unsorted when a
   * pass sorts none of them.
   */
  method FindParseOrder<H(==)>(includes: map<H, set<H>>) returns (r: Result<seq<H>, set<H>>)
    requires Closed(includes)
    ensures r.Success? ==> IsParseOrder(includes, r.value)
    ensures r.Failure? ==> Circular(includes, r.error)
  {
    var unsorted := includes.Keys;
    var sorted: set<H> := {};
    var ordering: seq<H> := [];
    assert Elems(ordering) == {};
    while unsorted != {}
      invariant sorted <= includes.Keys && unsorted == includes.Keys - sorted
      invariant Distinct(ordering) && sorted == Elems(ordering)
      invariant AfterIncludes(includes, ordering)
      decreases |unsorted|
    {
      var madeProgress, sorted', ordering' := Pass(includes, unsorted, sorted, ordering);
      if !madeProgress {
        forall h | h in unsorted
          ensures includes[h] * unsorted != {}
        {
          var d :| d in includes[h] && d !in sorted;
        }
        return Failure(unsorted);
      }
      assert sorted' - sorted != {};
      var x :| x in sorted' - sorted;
      RemoveShrinks(unsorted, sorted', x);
      sorted, ordering := sorted', ordering';
      unsorted := unsorted - sorted;
    }
    return Success(ordering);
  }

  /** A failure means that no parse order exists at all. */
  lemma FailureIsUnavoidable<H>(includes: map<H, set<H>>, unsorted: set<H>)
    requires Circular(includes, unsorted)
    ensures forall ordering: seq<H> :: !IsParseOrder(includes, ordering)
  {
    forall ordering: seq<H>
      ensures !IsParseOrder(includes, ordering)
    {
      CircularHasNoParseOrder(includes, unsorted, ordering);
    }
  }
}
