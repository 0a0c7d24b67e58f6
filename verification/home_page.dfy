/**
 * The brand list of the home page (src/app/page.js): the cars' brand labels, trimmed,
 * without blanks and duplicates, sorted with the German collation, and handed to the
 * search form.
 *
 * The collation (`localeCompare(b, "de")`) is the parameter `leq`: `leq(a, b)` holds when
 * the comparison of `a` with `b` is not positive.
 */
module HomePage {
  import opened Wrappers
  import opened JsValues
  import opened MobileDe

  // ---------------------------------------------------------------- distinct and sorted

  predicate NoDuplicates(xs: seq<string>) {
    forall i, j | 0 <= i < j < |xs| :: xs[i] != xs[j]
  }

  /** `xs.indexOf(x)` for a value of `xs`: the position of its first occurrence. */
  function FirstIndex(xs: seq<string>, x: string): (k: nat)
    requires x in xs
    ensures k < |xs| && xs[k] == x
    ensures forall i | 0 <= i < k :: xs[i] != x
  {
    if xs[0] == x then 0
    else
      assert xs == [xs[0]] + xs[1..];
      1 + FirstIndex(xs[1..], x)
  }

  /** The values of `r` occur in `xs`, in the order of their first occurrences there. */
  predicate InFirstOccurrenceOrder(r: seq<string>, xs: seq<string>) {
    (forall i | 0 <= i < |r| :: r[i] in xs) &&
    forall i, j | 0 <= i < j < |r| :: FirstIndex(xs, r[i]) < FirstIndex(xs, r[j])
  }

  /** Appending a value moves no first occurrence of the values already there. */
  lemma FirstIndexAppend(init: seq<string>, y: string)
    ensures forall x | x in init :: FirstIndex(init + [y], x) == FirstIndex(init, x)
  {
    forall x | x in init
      ensures FirstIndex(init + [y], x) == FirstIndex(init, x)
    {
      var k, m := FirstIndex(init + [y], x), FirstIndex(init, x);
      assert (init + [y])[m] == x;
    }
  }

  /**
   * `Array.from(new Set(xs))`: every value once, at the position of its first occurrence
   * (DistinctKeepsFirstOrder).
   */
  function Distinct(xs: seq<string>): (r: seq<string>)
    ensures NoDuplicates(r)
    ensures forall x :: x in r <==> x in xs
    ensures |r| <= |xs|
  {
    if xs == [] then []
    else
      var r := Distinct(xs[..|xs| - 1]);
      var last := xs[|xs| - 1];
      assert forall x :: x in xs <==> x in xs[..|xs| - 1] || x == last by {
        assert xs == xs[..|xs| - 1] + [last];
      }
      if last in r then r else r + [last]
  }

  /** The set keeps insertion order: the values come in the order of their first occurrences. */
  lemma {:induction false} DistinctKeepsFirstOrder(xs: seq<string>)
    ensures InFirstOccurrenceOrder(Distinct(xs), xs)
  {
    if xs != [] {
      var init := xs[..|xs| - 1];
      var last := xs[|xs| - 1];
      var r := Distinct(init);
      DistinctKeepsFirstOrder(init);
      assert xs == init + [last];
      FirstIndexAppend(init, last);
      if last !in r {
        assert last !in init;
        assert FirstIndex(xs, last) == |init|;
        assert Distinct(xs) == r + [last];
      }
    }
  }

  /** Only first occurrences are kept: on a list without repeats, the set changes nothing. */
  lemma {:induction false} DistinctOfDistinct(xs: seq<string>)
    requires NoDuplicates(xs)
    ensures Distinct(xs) == xs
  {
    if xs != [] {
      var init := xs[..|xs| - 1];
      assert NoDuplicates(init);
      DistinctOfDistinct(init);
      assert xs[|xs| - 1] !in init;
      assert xs == init + [xs[|xs| - 1]];
    }
  }

  /** `leq` orders every pair and is transitive, as a consistent comparator does. */
  ghost predicate TotalPreorder(leq: (string, string) -> bool) {
    && (forall a, b :: leq(a, b) || leq(b, a))
    && (forall a, b, c :: leq(a, b) && leq(b, c) ==> leq(a, c))
  }

  predicate Sorted(xs: seq<string>, leq: (string, string) -> bool) {
    forall i, j | 0 <= i < j < |xs| :: leq(xs[i], xs[j])
  }

  /** Puts `x` before the first element it does not come after. */
  function Insert(x: string, ys: seq<string>, leq: (string, string) -> bool): (r: seq<string>)
    ensures |r| == |ys| + 1
    ensures multiset(r) == multiset(ys) + multiset{x}
    ensures forall z :: z in r <==> z == x || z in ys
    ensures x !in ys && NoDuplicates(ys) ==> NoDuplicates(r)
  {
    if ys == [] || leq(x, ys[0]) then
      assert x !in ys && NoDuplicates(ys) ==> NoDuplicates([x] + ys) by {
        if x !in ys && NoDuplicates(ys) {
          NoDuplicatesCons(x, ys);
        }
      }
      [x] + ys
    else
      var rest := Insert(x, ys[1..], leq);
      assert ys == [ys[0]] + ys[1..];
      assert x !in ys && NoDuplicates(ys) ==> NoDuplicates([ys[0]] + rest) by {
        if x !in ys && NoDuplicates(ys) {
          assert ys[0] !in ys[1..];
          assert NoDuplicates(ys[1..]);
          NoDuplicatesCons(ys[0], rest);
        }
      }
      [ys[0]] + rest
  }

  /** Putting a new value in front of a list without repeats keeps it without repeats. */
  lemma NoDuplicatesCons(h: string, t: seq<string>)
    requires NoDuplicates(t) && h !in t
    ensures NoDuplicates([h] + t)
  {
    var s := [h] + t;
    forall i, j | 0 <= i < j < |s|
      ensures s[i] != s[j]
    {
      assert s[j] == t[j - 1];
      if i > 0 {
        assert s[i] == t[i - 1];
      }
    }
  }

  /** `xs.sort(compare)` as an insertion sort. */
  function Sort(xs: seq<string>, leq: (string, string) -> bool): (r: seq<string>)
    ensures |r| == |xs|
    ensures multiset(r) == multiset(xs)
    ensures forall z :: z in r <==> z in xs
    ensures NoDuplicates(xs) ==> NoDuplicates(r)
  {
    if xs == [] then []
    else
      assert xs == [xs[0]] + xs[1..];
      Insert(xs[0], Sort(xs[1..], leq), leq)
  }

  /** Inserting into a sorted list keeps it sorted. */
  lemma {:induction false} InsertSorted(x: string, ys: seq<string>, leq: (string, string) -> bool)
    requires TotalPreorder(leq) && Sorted(ys, leq)
    ensures Sorted(Insert(x, ys, leq), leq)
  {
    if ys != [] && !leq(x, ys[0]) {
      InsertSorted(x, ys[1..], leq);
      var r := Insert(x, ys, leq);
      assert leq(ys[0], x);
      forall j | 0 < j < |r|
        ensures leq(ys[0], r[j])
      {
        assert r[j] in Insert(x, ys[1..], leq);
        if r[j] != x {
          var k :| 0 <= k < |ys[1..]| && ys[1..][k] == r[j];
          assert ys[k + 1] == r[j];
        }
      }
    }
  }

  /** With a consistent comparator the result is in order. */
  lemma {:induction false} SortSorted(xs: seq<string>, leq: (string, string) -> bool)
    requires TotalPreorder(leq)
    ensures Sorted(Sort(xs, leq), leq)
  {
    if xs != [] {
      SortSorted(xs[1..], leq);
      InsertSorted(xs[0], Sort(xs[1..], leq), leq);
    }
  }

  // ---------------------------------------------------------------- brands

  /** `String(brand || "").trim()`. */
  function BrandLabel(brand: Value): (r: string)
    ensures IsTrimmed(r)
    ensures !Truthy(brand) ==> r == ""
    ensures brand.Str? ==> r == Trim(brand.s)
  {
    var v := Or(brand, Str(""));
    assert !Truthy(brand) ==> ToJsString(v) == "" by {
      if !Truthy(brand) {
        assert v == Str("");
      }
    }
    assert brand.Str? ==> ToJsString(v) == brand.s;
    Trim(ToJsString(v))
  }

  /** The labels of a list of brand values. */
  function Labels(brands: seq<Value>): (r: seq<string>)
    ensures |r| == |brands| && forall i | 0 <= i < |brands| :: r[i] == BrandLabel(brands[i])
  {
    seq(|brands|, i requires 0 <= i < |brands| => BrandLabel(brands[i]))
  }

  /**
   * The brand options from the brand values: each non-blank label once, trimmed,
   * in collation order; a label is offered exactly when some brand value has it.
   */
  function BrandOptions(brands: seq<Value>, leq: (string, string) -> bool): (r: seq<string>)
    ensures NoDuplicates(r)
    ensures forall x :: x in r <==> x != "" && x in Labels(brands)
    ensures forall i | 0 <= i < |r| :: IsTrimmed(r[i])
    ensures |r| <= |brands|
  {
    var labels := Labels(brands);
    assert forall x | x in labels :: IsTrimmed(x);
    var kept := FilterNonEmpty(labels);
    assert forall x :: x in kept <==> x in labels && x != "";
    var r := Sort(Distinct(kept), leq);
    assert forall x :: x in r <==> x in kept;
    r
  }

  /** The brand options are in collation order. */
  lemma BrandOptionsSorted(brands: seq<Value>, leq: (string, string) -> bool)
    requires TotalPreorder(leq)
    ensures Sorted(BrandOptions(brands, leq), leq)
  {
    SortSorted(Distinct(FilterNonEmpty(Labels(brands))), leq);
  }

  /** `cars.map(c => c.brand)`. */
  function CarBrands(cars: seq<UiCar>): (r: seq<Value>)
    ensures |r| == |cars| && forall i | 0 <= i < |cars| :: r[i] == cars[i].Property("brand")
  {
    seq(|cars|, i requires 0 <= i < |cars| => cars[i].Property("brand"))
  }

  /**
   * `ads.map(mapAdToUiCar)`: the mapped cars, or the failure of the first ad whose fields
   * do not convert (the mapping throws, and the page with it).
   */
  function MapAds(ads: seq<Value>): (r: Result<seq<UiCar>, Failure>)
    ensures r.Success? <==> forall i | 0 <= i < |ads| :: MapConverts(ads[i])
    ensures r.Failure? ==> r.error == NotConvertible
    ensures r.Success? ==> |r.value| == |ads| && forall i | 0 <= i < |ads| :: r.value[i] == UiCarOf(ads[i])
  {
    if forall i | 0 <= i < |ads| :: MapConverts(ads[i]) then
      Success(seq(|ads|, i requires 0 <= i < |ads| => MapAdToUiCar(ads[i]).value))
    else Failure(NotConvertible)
  }

  /**
   * The list handed to the search form: the brand options of the mapped cars, or the
   * failure of the fetch or of the mapping.
   */
  function HomeBrands(env: Env, respond: Request -> Option<Reply>, leq: (string, string) -> bool): (r: Result<seq<string>, Failure>)
    ensures FetchSellerAds(env, respond).Failure? ==> r == Failure(FetchSellerAds(env, respond).error)
    ensures FetchSellerAds(env, respond).Success? ==>
              (r.Success? <==> MapAds(FetchSellerAds(env, respond).value).Success?)
    ensures r.Success? ==>
              r.value == BrandOptions(CarBrands(MapAds(FetchSellerAds(env, respond).value).value), leq)
  {
    match FetchSellerAds(env, respond)
    case Failure(e) => Failure(e)
    case Success(ads) =>
      match MapAds(ads)
      case Failure(e) => Failure(e)
      case Success(cars) => Success(BrandOptions(CarBrands(cars), leq))
  }

  /**
   * The car objects have no `brand` property, so every brand reads as `undefined` and
   * the home page always offers an empty brand list, whatever the ads hold.
   */
  lemma HomeBrandsAlwaysEmpty(env: Env, respond: Request -> Option<Reply>, leq: (string, string) -> bool)
    requires HomeBrands(env, respond, leq).Success?
    ensures HomeBrands(env, respond, leq).value == []
  {
    NoCarHasBrand(MapAds(FetchSellerAds(env, respond).value).value, leq);
  }

  /** Whatever the cars, no brand option is offered, since no car has a `brand` property. */
  lemma NoCarHasBrand(cars: seq<UiCar>, leq: (string, string) -> bool)
    ensures BrandOptions(CarBrands(cars), leq) == []
  {
    CarKeyFacts();
    var brands := CarBrands(cars);
    assert forall i | 0 <= i < |brands| :: brands[i] == Undefined;
    var labels := Labels(brands);
    assert forall i | 0 <= i < |labels| :: labels[i] == "";
    var r := BrandOptions(brands, leq);
    assert forall x :: x !in r;
  }

  // ---------------------------------------------------------------- the listing page's brands

  /** `s.split(sep)` for a one-character separator: the pieces between the separators. */
  function Split(s: string, sep: char): (r: seq<string>)
    ensures |r| >= 1
    ensures forall i | 0 <= i < |r| :: sep !in r[i]
    ensures sep !in s ==> r == [s]
  {
    if s == "" then [""]
    else
      var rest := Split(s[1..], sep);
      if s[0] == sep then [""] + rest
      else
        assert sep !in [s[0]] + rest[0];
        assert sep !in s ==> [s[0]] + rest[0] == s;
        [[s[0]] + rest[0]] + rest[1..]
  }

  /** Joining the pieces with the separator gives the text back. */
  lemma {:induction false} SplitJoin(s: string, sep: char)
    ensures Join([sep], Split(s, sep)) == s
  {
    if s != "" {
      var rest := Split(s[1..], sep);
      SplitJoin(s[1..], sep);
      if s[0] == sep {
        assert Join([sep], [""] + rest) == "" + [sep] + Join([sep], rest);
      } else if |rest| == 1 {
        assert Split(s, sep) == [[s[0]] + rest[0]];
      } else {
        var r := Split(s, sep);
        assert r[1..] == rest[1..];
        assert Join([sep], rest) == rest[0] + [sep] + Join([sep], rest[1..]);
        assert Join([sep], r) == [s[0]] + rest[0] + [sep] + Join([sep], rest[1..]);
      }
    }
  }

  /** A separator-free text before the first separator is the first piece, and the rest splits on its own. */
  lemma {:induction false} SplitAfter(a: string, sep: char, b: string)
    requires sep !in a
    ensures Split(a + [sep] + b, sep) == [a] + Split(b, sep)
  {
    if a == "" {
      assert a + [sep] + b == [sep] + b;
      assert ([sep] + b)[1..] == b;
    } else {
      SplitAfter(a[1..], sep, b);
      assert (a + [sep] + b)[1..] == a[1..] + [sep] + b;
      assert [a[0]] + a[1..] == a;
    }
  }

  /** Splitting a join of separator-free pieces gives the pieces back. */
  lemma {:induction false} SplitOfJoin(xs: seq<string>, sep: char)
    requires xs != []
    requires forall i | 0 <= i < |xs| :: sep !in xs[i]
    ensures Split(Join([sep], xs), sep) == xs
  {
    if |xs| == 1 {
      assert Join([sep], xs) == xs[0];
    } else {
      SplitOfJoin(xs[1..], sep);
      assert Join([sep], xs) == xs[0] + [sep] + Join([sep], xs[1..]);
      SplitAfter(xs[0], sep, Join([sep], xs[1..]));
      assert xs == [xs[0]] + xs[1..];
    }
  }

  /** `(title || "").split(" ")[0]`: the title up to its first space. */
  function FirstWord(title: string): (r: string)
    ensures ' ' !in r
    ensures ' ' !in title ==> r == title
  {
    Split(title, ' ')[0]
  }

  /** `normalizeStr(c.brand || (c.title || "").split(" ")[0])`: the brand a car is listed under. */
  function ListingBrand(car: UiCar): (r: string)
    ensures IsTrimmed(r)
    ensures r == Trim(FirstWord(car.title))
  {
    CarKeyFacts();
    BrandLabel(Or(car.Property("brand"), Str(FirstWord(car.title))))
  }

  /** The listing's brand of each car, as the value it is normalised from. */
  function ListingBrandSources(cars: seq<UiCar>): (r: seq<Value>)
    ensures |r| == |cars|
    ensures Labels(r) == ListingBrands(cars)
  {
    var r := seq(|cars|, i requires 0 <= i < |cars| => Or(cars[i].Property("brand"), Str(FirstWord(cars[i].title))));
    assert Labels(r) == ListingBrands(cars);
    r
  }

  /** The brand each car is listed under. */
  function ListingBrands(cars: seq<UiCar>): (r: seq<string>)
    ensures |r| == |cars| && forall i | 0 <= i < |cars| :: r[i] == ListingBrand(cars[i])
  {
    seq(|cars|, i requires 0 <= i < |cars| => ListingBrand(cars[i]))
  }

  /**
   * The brand options as the listing page builds them: a brand is offered exactly when it
   * is not blank and some car is listed under it.
   */
  function ListingBrandOptions(cars: seq<UiCar>, leq: (string, string) -> bool): (r: seq<string>)
    ensures NoDuplicates(r)
    ensures forall b :: b in r <==> b != "" && b in ListingBrands(cars)
  {
    BrandOptions(ListingBrandSources(cars), leq)
  }

  /** The home page's brand list built the listing page's way from the same cars. */
  function ListingHomeBrands(env: Env, respond: Request -> Option<Reply>, leq: (string, string) -> bool): (r: Result<seq<string>, Failure>)
    ensures r.Failure? <==> HomeBrands(env, respond, leq).Failure?
    ensures r.Success? ==>
              var cars := MapAds(FetchSellerAds(env, respond).value).value;
              forall b :: b in r.value <==> b != "" && b in ListingBrands(cars)
  {
    match FetchSellerAds(env, respond)
    case Failure(e) => Failure(e)
    case Success(ads) =>
      match MapAds(ads)
      case Failure(e) => Failure(e)
      case Success(cars) => Success(ListingBrandOptions(cars, leq))
  }

  /**
   * `parseMulti(sp, "brand")` on the query value (empty when absent): the comma-separated
   * parts, trimmed, without the blank ones.
   */
  function ParseMulti(raw: string): (r: seq<string>)
    ensures forall i | 0 <= i < |r| :: r[i] != "" && IsTrimmed(r[i]) && ',' !in r[i]
  {
    if raw == "" then [] else FilterNonEmpty(TrimAll(Split(raw, ',')))
  }

  /** `xs.map(x => x.trim())`. */
  function TrimAll(xs: seq<string>): (r: seq<string>)
    ensures |r| == |xs| && forall i | 0 <= i < |xs| :: r[i] == Trim(xs[i])
  {
    seq(|xs|, i requires 0 <= i < |xs| => Trim(xs[i]))
  }

  /**
   * Reading back a selection written by `buildQuery` (`brands.join(",")`) gives the
   * selection, for options that are non-empty, trimmed and free of commas.
   */
  lemma ParseMultiOfJoin(bs: seq<string>)
    requires forall i | 0 <= i < |bs| :: bs[i] != "" && IsTrimmed(bs[i]) && ',' !in bs[i]
    ensures ParseMulti(Join(",", bs)) == bs
  {
    if bs != [] {
      var raw := Join(",", bs);
      JoinStartsWithFirst(bs);
      SplitOfJoin(bs, ',');
      TrimAllOfTrimmed(bs);
      FilterNonEmptyKeepsNonEmpty(bs);
      assert ParseMulti(raw) == FilterNonEmpty(TrimAll(Split(raw, ',')));
    }
  }

  /** A join starts with its first part, so a non-empty first part makes it non-empty. */
  lemma JoinStartsWithFirst(bs: seq<string>)
    requires bs != []
    ensures |Join(",", bs)| >= |bs[0]| && Join(",", bs)[..|bs[0]|] == bs[0]
  {
    if |bs| > 1 {
      assert Join(",", bs) == bs[0] + ("," + Join(",", bs[1..]));
    }
  }

  /** Trimming trimmed texts changes none of them. */
  lemma TrimAllOfTrimmed(xs: seq<string>)
    requires forall i | 0 <= i < |xs| :: IsTrimmed(xs[i])
    ensures TrimAll(xs) == xs
  {
    forall i | 0 <= i < |xs|
      ensures Trim(xs[i]) == xs[i]
    {
      TrimOfTrimmed(xs[i]);
    }
  }

  /** A single option without a comma comes back from the query as itself. */
  lemma ParseMultiOfOption(b: string)
    requires b != "" && IsTrimmed(b) && ',' !in b
    ensures ParseMulti(b) == [b]
  {
    ParseMultiOfJoin([b]);
  }

  /**
   * A brand holding a comma is not read back as itself: the query splits it, so the cars
   * listed under it fail the brand test whenever any part of it is left.
   */
  lemma CommaBrandNotSelected(b: string)
    requires ',' in b
    ensures b !in ParseMulti(b)
    ensures ParseMulti(b) != [] ==> !BrandSelected(ParseMulti(b), b)
  {
  }

  /**
   * `if (brandSet.size && !brandSet.has(brand)) return false`: the brand test of the listing
   * filter, for a car listed under `brand`.
   */
  predicate BrandSelected(selected: seq<string>, brand: string) {
    |selected| == 0 || brand in selected
  }

  /**
   * Searching from the home page for an offered brand finds cars on the listing page: the
   * query carries the option, the listing parses it back as the selection `[b]`, and some
   * car is listed under it. Exactly the cars listed under the option pass the brand test.
   */
  lemma OfferedBrandSelectsCars(cars: seq<UiCar>, leq: (string, string) -> bool, b: string)
    requires b in ListingBrandOptions(cars, leq) && ',' !in b
    ensures ParseMulti(b) == [b]
    ensures exists i | 0 <= i < |cars| :: BrandSelected([b], ListingBrands(cars)[i])
    ensures forall brand :: BrandSelected([b], brand) <==> brand == b
  {
    ParseMultiOfOption(b);
    OptionIsListed(cars, leq, b);
    SingleSelection(b);
  }

  /** A selection of one brand lets exactly the cars of that brand through. */
  lemma SingleSelection(b: string)
    ensures forall brand :: BrandSelected([b], brand) <==> brand == b
  {
  }

  /** An offered brand is the listing brand of some car. */
  lemma OptionIsListed(cars: seq<UiCar>, leq: (string, string) -> bool, b: string)
    requires b in ListingBrandOptions(cars, leq)
    ensures exists i | 0 <= i < |cars| :: BrandSelected([b], ListingBrands(cars)[i])
  {
    var i :| 0 <= i < |cars| && ListingBrands(cars)[i] == b;
    assert BrandSelected([b], ListingBrands(cars)[i]);
  }

  /**
   * For an ad whose make is a single word and whose model and description are plain
   * texts, the car is listed under its make.
   */
  lemma ListingBrandIsMake(ad: Value, make: string, model: string, description: string)
    requires Get(ad, "make") == Str(make) && Get(ad, "model") == Str(model)
    requires Get(ad, "modelDescription") == Str(description)
    requires IsTrimmed(make) && IsTrimmed(model) && IsTrimmed(description)
    requires make != "" && ' ' !in make
    ensures ListingBrand(UiCarOf(ad)) == make
  {
    TitleOfNames(ad, make, model, description);
    BrandOfNames(make, model, description);
  }

  /** The first word of the non-empty names joined by spaces is the make, when it is non-empty and has no space. */
  lemma BrandOfNames(make: string, model: string, description: string)
    requires IsTrimmed(make) && make != "" && ' ' !in make
    ensures var names := FilterNonEmpty([make, model, description]);
            names != [] && Trim(FirstWord(Join(" ", names))) == make
  {
    var names := FilterNonEmpty([make, model, description]);
    assert names == [make] + FilterNonEmpty([model, description]) by {
      assert [make, model, description] == [make] + [model, description];
      FilterNonEmptyAppend([make], [model, description]);
    }
    FirstWordOfJoin(names);
  }

  /** The brand of a text of names joined by spaces is the first name, when it has no space. */
  lemma FirstWordOfJoin(names: seq<string>)
    requires names != [] && names[0] != "" && ' ' !in names[0] && IsTrimmed(names[0])
    ensures Trim(FirstWord(Join(" ", names))) == names[0]
  {
    if |names| == 1 {
      assert Join(" ", names) == names[0];
    } else {
      assert Join(" ", names) == names[0] + " " + Join(" ", names[1..]);
      SplitAfter(names[0], ' ', Join(" ", names[1..]));
    }
    TrimOfTrimmed(names[0]);
  }
}
