/** The search box of src/components/SearchDealers.tsx: the list that
    `handleSearch` hands to `onSearch`, as a function of the dealers, the
    typed term and the selected search type. */
module SearchDealers {
  import opened Seqs
  import opened Strings
  import opened Dealers

  /** The two options of the search-type selector. */
  datatype SearchType = City | Zip

  /** The per-dealer test inside `dealers.filter(...)`: a case-insensitive
      substring test on the city, or a case-sensitive one on the zip code. */
  predicate Matches(d: Dealer, term: string, searchType: SearchType) {
    match searchType
    case City => Includes(ToLower(d.city), ToLower(term))
    case Zip => Includes(d.zip, term)
  }

  /** The dealer field the selected search type looks in. */
  function SearchedField(d: Dealer, searchType: SearchType): string {
    match searchType
    case City => d.city
    case Zip => d.zip
  }

  /** `handleSearch`: a term that trims to nothing shows every dealer;
      otherwise the dealers that match the term as typed, in input order. */
  function HandleSearch(dealers: seq<Dealer>, searchTerm: string, searchType: SearchType): (r: seq<Dealer>)
    ensures |r| <= |dealers|
    ensures IsSubseq(r, dealers)
  {
    if Trim(searchTerm) == [] then
      SubseqReflexive(dealers);
      dealers
    else
      var keep := (d: Dealer) => Matches(d, searchTerm, searchType);
      FilterIsSubseq(keep, dealers);
      Filter(keep, dealers)
  }

  /** A blank term returns the input list itself, whichever the search type. */
  lemma BlankTermShowsAll(dealers: seq<Dealer>, searchTerm: string, searchType: SearchType)
    requires AllSpace(searchTerm)
    ensures HandleSearch(dealers, searchTerm, searchType) == dealers
  {
    TrimEmptyIffBlank(searchTerm);
  }

  /** In city mode a non-blank term keeps exactly the dealers whose
      lower-cased city contains the lower-cased term, each as many times as
      it occurs in the input. */
  lemma CitySearchSelects(dealers: seq<Dealer>, searchTerm: string)
    requires !AllSpace(searchTerm)
    ensures forall d :: d in HandleSearch(dealers, searchTerm, City) <==>
              d in dealers && exists i :: OccursAt(ToLower(d.city), ToLower(searchTerm), i)
    ensures forall d :: multiset(HandleSearch(dealers, searchTerm, City))[d] ==
              if exists i :: OccursAt(ToLower(d.city), ToLower(searchTerm), i) then multiset(dealers)[d] else 0
  {
    FilterCount((d: Dealer) => Matches(d, searchTerm, City), dealers);
    TrimEmptyIffBlank(searchTerm);
    forall d ensures Matches(d, searchTerm, City) <==> exists i :: OccursAt(ToLower(d.city), ToLower(searchTerm), i) {
      IncludesIffOccurs(ToLower(d.city), ToLower(searchTerm));
    }
    FilterMembership((d: Dealer) => Matches(d, searchTerm, City), dealers);
  }

  /** In zip mode a non-blank term keeps exactly the dealers whose zip code
      contains the term, with case respected, each as many times as it
      occurs in the input. */
  lemma ZipSearchSelects(dealers: seq<Dealer>, searchTerm: string)
    requires !AllSpace(searchTerm)
    ensures forall d :: d in HandleSearch(dealers, searchTerm, Zip) <==>
              d in dealers && exists i :: OccursAt(d.zip, searchTerm, i)
    ensures forall d :: multiset(HandleSearch(dealers, searchTerm, Zip))[d] ==
              if exists i :: OccursAt(d.zip, searchTerm, i) then multiset(dealers)[d] else 0
  {
    FilterCount((d: Dealer) => Matches(d, searchTerm, Zip), dealers);
    TrimEmptyIffBlank(searchTerm);
    forall d ensures Matches(d, searchTerm, Zip) <==> exists i :: OccursAt(d.zip, searchTerm, i) {
      IncludesIffOccurs(d.zip, searchTerm);
    }
    FilterMembership((d: Dealer) => Matches(d, searchTerm, Zip), dealers);
  }

  /** City search ignores the case of the term: two terms that differ only
      in the case of their letters give the same list. */
  lemma CitySearchIgnoresCase(dealers: seq<Dealer>, a: string, b: string)
    requires SameUpToCase(a, b)
    ensures HandleSearch(dealers, a, City) == HandleSearch(dealers, b, City)
  {
    ToLowerEqualIffSameUpToCase(a, b);
    TrimEmptyIffBlank(a);
    TrimEmptyIffBlank(b);
    assert AllSpace(a) <==> AllSpace(b) by {
      forall i | 0 <= i < |a| ensures IsSpace(a[i]) <==> IsSpace(b[i]) {
        assert LowerChar(a[i]) == LowerChar(b[i]) by { LowerCharEqual(a[i], b[i]); }
      }
    }
    FilterCongruence((d: Dealer) => Matches(d, a, City), (d: Dealer) => Matches(d, b, City), dealers);
  }

  /** A non-blank term that matches no dealer gives the empty list, not the
      full one. */
  lemma NoMatchGivesEmpty(dealers: seq<Dealer>, searchTerm: string, searchType: SearchType)
    requires !AllSpace(searchTerm)
    requires forall i :: 0 <= i < |dealers| ==> !Matches(dealers[i], searchTerm, searchType)
    ensures HandleSearch(dealers, searchTerm, searchType) == []
  {
    TrimEmptyIffBlank(searchTerm);
    FilterMembership((d: Dealer) => Matches(d, searchTerm, searchType), dealers);
    assert forall d :: d in dealers ==> !Matches(d, searchTerm, searchType);
  }

  /** The term is matched untrimmed: a non-blank term with a white-space
      character anywhere (say " Conway") matches no dealer whose searched
      field has none, so it can return nothing where its trimmed form
      would match. */
  lemma UntrimmedTermMatchesNothing(dealers: seq<Dealer>, searchTerm: string, searchType: SearchType, k: nat)
    requires !AllSpace(searchTerm)
    requires k < |searchTerm| && IsSpace(searchTerm[k])
    requires forall i :: 0 <= i < |dealers| ==> NoSpace(SearchedField(dealers[i], searchType))
    ensures HandleSearch(dealers, searchTerm, searchType) == []
  {
    forall i | 0 <= i < |dealers| ensures !Matches(dealers[i], searchTerm, searchType) {
      var d := dealers[i];
      var field, term := if searchType == City then ToLower(d.city) else d.zip,
                         if searchType == City then ToLower(searchTerm) else searchTerm;
      IncludesIffOccurs(field, term);
      forall p | 0 <= p && p + |term| <= |field| ensures !OccursAt(field, term, p) {
        assert field[p..p + |term|][k] == field[p + k];
      }
    }
    NoMatchGivesEmpty(dealers, searchTerm, searchType);
  }
}
