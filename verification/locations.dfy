/** The city links of src/app/locations/page.tsx and of the dealer cards in
    src/components/DealerList.tsx: a city becomes the URL slug
    `city.toLowerCase().replace(/\s+/g, '-')`. */
module Locations {
  import opened Seqs
  import opened Strings
  import opened Dealers

  /** `s.replace(/\s+/g, '-')`: scanning from the left, each maximal run of
      white space is replaced by one '-'; other characters are copied. */
  function Hyphenate(s: string): (r: string)
    ensures NoSpace(r)
    ensures |r| <= |s|
    decreases |s|
  {
    if s == [] then []
    else if IsSpace(s[0]) then
      "-" + Hyphenate(TrimStart(s))
    else [s[0]] + Hyphenate(s[1..])
  }

  /** The slug of a city name. */
  function Slug(city: string): (r: string)
    ensures NoSpace(r)
    ensures |r| <= |city|
  {
    Hyphenate(ToLower(city))
  }

  /** The link target of a city: `/locations/<slug>`. */
  function LocationHref(city: string): (r: string)
    ensures StartsWith(r, "/locations/")
    ensures NoSpace(r)
  {
    "/locations/" + Slug(city)
  }

  /** The link target determines the slug: two cities share a target
      exactly when they share a slug. */
  lemma HrefIdentifiesSlug(a: string, b: string)
    ensures LocationHref(a) == LocationHref(b) <==> Slug(a) == Slug(b)
  {
  }

  /** Text without white space is left alone by the replacement. */
  lemma {:induction false} HyphenateSpaceFree(s: string)
    requires NoSpace(s)
    ensures Hyphenate(s) == s
  {
    if s != [] {
      HyphenateSpaceFree(s[1..]);
    }
  }

  /** A one-word city's slug is just the city lower-cased. */
  lemma SlugOfWord(city: string)
    requires NoSpace(city)
    ensures Slug(city) == ToLower(city)
  {
    HyphenateSpaceFree(ToLower(city));
  }

  /** A word followed by a maximal white-space run: the word is copied and
      the whole run becomes exactly one '-'. */
  lemma HyphenateRun(w: string, run: string, rest: string)
    requires NoSpace(w) && run != [] && AllSpace(run)
    requires rest == [] || !IsSpace(rest[0])
    ensures Hyphenate(w + run + rest) == w + "-" + Hyphenate(rest)
  {
    assert w + run + rest == w + (run + rest);
    HyphenateWordPrefix(w, run + rest);
    HyphenateLeadingRun(run, rest);
  }

  /** Text without white space in front is copied unchanged. */
  lemma {:induction false} HyphenateWordPrefix(w: string, x: string)
    requires NoSpace(w)
    ensures Hyphenate(w + x) == w + Hyphenate(x)
  {
    if w == [] {
      assert w + x == x;
    } else {
      var c, tail := w[0], w[1..] + x;
      HyphenateWordPrefix(w[1..], x);
      assert w + x == [c] + tail;
      HyphenateCons(c, tail);
      assert w == [c] + w[1..];
    }
  }

  lemma HyphenateCons(c: char, s: string)
    requires !IsSpace(c)
    ensures Hyphenate([c] + s) == [c] + Hyphenate(s)
  {
    assert ([c] + s)[1..] == s;
  }

  lemma HyphenateLeadingRun(run: string, rest: string)
    requires run != [] && AllSpace(run)
    requires rest == [] || !IsSpace(rest[0])
    ensures Hyphenate(run + rest) == "-" + Hyphenate(rest)
  {
    var s := run + rest;
    assert IsSpace(s[0]);
    TrimStartRun(run, rest);
  }

  lemma TrimStartCons(c: char, s: string)
    requires IsSpace(c)
    ensures TrimStart([c] + s) == TrimStart(s)
  {
    assert ([c] + s)[1..] == s;
  }

  lemma {:induction false} TrimStartRun(run: string, rest: string)
    requires AllSpace(run)
    requires rest == [] || !IsSpace(rest[0])
    ensures TrimStart(run + rest) == rest
  {
    if run != [] {
      TrimStartRun(run[1..], rest);
      assert run + rest == [run[0]] + (run[1..] + rest);
      TrimStartCons(run[0], run[1..] + rest);
    } else {
      assert run + rest == rest;
    }
  }

  /** The same statement for the slug: the word is lower-cased, and each
      maximal run of white space in the city becomes one '-'. */
  lemma SlugRun(w: string, run: string, rest: string)
    requires NoSpace(w) && run != [] && AllSpace(run)
    requires rest == [] || !IsSpace(rest[0])
    ensures Slug(w + run + rest) == ToLower(w) + "-" + Slug(rest)
  {
    ToLowerAppend(w + run, rest);
    ToLowerAppend(w, run);
    HyphenateRun(ToLower(w), ToLower(run), ToLower(rest));
  }

  /** Every character the replacement produces is a '-' or comes from its
      input. */
  lemma {:induction false} HyphenateChars(s: string)
    ensures forall i :: 0 <= i < |Hyphenate(s)| ==> Hyphenate(s)[i] == '-' || Hyphenate(s)[i] in s
    decreases |s|
  {
    if s != [] {
      if IsSpace(s[0]) {
        var rest := TrimStart(s);
        TrimStartSuffix(s);
        HyphenateChars(rest);
        forall c | c in rest ensures c in s {
          var j :| 0 <= j < |rest| && rest[j] == c;
          assert s[|s| - |rest| + j] == c;
        }
      } else {
        HyphenateChars(s[1..]);
        forall c | c in s[1..] ensures c in s {
          var j :| 0 <= j < |s[1..]| && s[1..][j] == c;
          assert s[j + 1] == c;
        }
      }
    }
  }

  /** Slugging a slug changes nothing. */
  lemma SlugIdempotent(city: string)
    ensures Slug(Slug(city)) == Slug(city)
  {
    var s := Slug(city);
    HyphenateChars(ToLower(city));
    assert ToLower(s) == s by {
      forall i | 0 <= i < |s| ensures LowerChar(s[i]) == s[i] {
        if s[i] != '-' {
          var j :| 0 <= j < |ToLower(city)| && ToLower(city)[j] == s[i];
        }
      }
    }
    HyphenateSpaceFree(s);
  }

  predicate NotHyphen(c: char) {
    c != '-'
  }

  predicate NotSpaceOrHyphen(c: char) {
    !IsSpace(c) && c != '-'
  }

  /** Deleting leading white space does not change what the replacement
      leaves once its hyphens are removed. */
  lemma HyphenateDropSpace(s: string)
    requires s != [] && IsSpace(s[0])
    ensures Filter(NotHyphen, Hyphenate(s)) == Filter(NotHyphen, Hyphenate(s[1..]))
  {
    var rest := s[1..];
    if rest != [] && IsSpace(rest[0]) {
      assert TrimStart(s) == TrimStart(rest);
      assert Filter(NotHyphen, "-" + Hyphenate(TrimStart(rest))) == Filter(NotHyphen, Hyphenate(TrimStart(rest)));
    } else {
      assert TrimStart(s) == rest;
      assert Filter(NotHyphen, "-" + Hyphenate(rest)) == Filter(NotHyphen, Hyphenate(rest));
    }
  }

  /** Apart from hyphens, the replacement keeps exactly the characters that
      are not white space, in order. */
  lemma {:induction false} HyphenateKeepsOthers(s: string)
    ensures Filter(NotSpaceOrHyphen, s) == Filter(NotHyphen, Hyphenate(s))
  {
    if s != [] {
      HyphenateKeepsOthers(s[1..]);
      if IsSpace(s[0]) {
        HyphenateDropSpace(s);
      } else {
        assert Hyphenate(s) == [s[0]] + Hyphenate(s[1..]);
        assert ([s[0]] + Hyphenate(s[1..]))[1..] == Hyphenate(s[1..]);
      }
    }
  }

  /** The slug's characters other than '-' are the city's characters other
      than white space and '-', lower-cased, in order. */
  lemma SlugKeepsOthers(city: string)
    ensures Filter(NotHyphen, Slug(city)) == Filter(NotSpaceOrHyphen, ToLower(city))
  {
    HyphenateKeepsOthers(ToLower(city));
  }

  /** One link of the locations page: the city shown and its target. */
  datatype Link = Link(city: string, href: string)

  /** `cities.map(city => <Link href=... />)` over `getMajorArkansasCities()`. */
  function LocationLinks(t: seq<(string, Coord)>): (r: seq<Link>)
    ensures |r| == |MajorCities(t)|
    ensures forall i :: 0 <= i < |r| ==> r[i].city == MajorCities(t)[i] && r[i].href == LocationHref(r[i].city)
  {
    Map((c: string) => Link(c, LocationHref(c)), MajorCities(t))
  }

  /** The page shows one link per gazetteer city: as many links as cities,
      and a city has a link exactly when it is a gazetteer key. */
  lemma OneLinkPerCity(t: seq<(string, Coord)>)
    ensures |LocationLinks(t)| == |ToMap(t)|
    ensures forall c :: c in ToMap(t) <==> exists i :: 0 <= i < |LocationLinks(t)| && LocationLinks(t)[i].city == c
  {
    MajorCitiesCount(t);
    var cities := MajorCities(t);
    var links := LocationLinks(t);
    forall c | c in ToMap(t) ensures exists i :: 0 <= i < |links| && links[i].city == c {
      var i :| 0 <= i < |cities| && cities[i] == c;
      assert links[i].city == c;
    }
    forall i | 0 <= i < |links| ensures links[i].city in ToMap(t) {
      assert cities[i] in cities;
    }
  }

  /** The links appear in strictly ascending order of their cities, as
      `getMajorArkansasCities` sorts them. */
  lemma LinksAscending(t: seq<(string, Coord)>)
    ensures forall i, j :: 0 <= i < j < |LocationLinks(t)| ==> Less(LocationLinks(t)[i].city, LocationLinks(t)[j].city)
  {
  }

  /** The "View location" link of a dealer card, which writes the slug
      expression out again rather than sharing the page's. */
  function DealerCardHref(d: Dealer): (r: string)
    ensures r == LocationHref(d.city)
  {
    "/locations/" + Hyphenate(ToLower(d.city))
  }

  /** A dealer card whose city is a gazetteer city links to exactly the
      target of that city's link on the locations page. */
  lemma DealerCardLinksToCityPage(t: seq<(string, Coord)>, d: Dealer)
    requires d.city in ToMap(t)
    ensures exists i :: 0 <= i < |LocationLinks(t)| && LocationLinks(t)[i] == Link(d.city, DealerCardHref(d))
  {
    var cities := MajorCities(t);
    var i :| 0 <= i < |cities| && cities[i] == d.city;
    assert LocationLinks(t)[i] == Link(d.city, DealerCardHref(d));
  }
}
