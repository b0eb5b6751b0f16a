/** A location (`Local`) of the road network: a named place with a parish,
    coordinates and a bounded set of lower-case keywords (local.py). */
module Places {
  import opened Wrappers
  import opened Text
  import opened Geo

  /** `Local.MAX_PALAVRAS_CHAVE`: the most keywords a location may carry. */
  const MaxKeywords: nat := 6

  /** Why the `Local` constructor raises `ValueError`. */
  datatype LocationError = EmptyName | EmptyDistrict | TooManyKeywords

  /** Every keyword is non-empty and already lower-case. */
  ghost predicate WellFormedKeywords(ks: set<string>) {
    forall k :: k in ks ==> k != "" && IsLower(k)
  }

  /** The keyword set the constructor builds from a supplied list:
      `set(pc.lower() for pc in palavras_chave if pc)`. */
  function KeywordSet(ws: seq<string>): (r: set<string>)
    ensures |r| <= |ws|
    ensures WellFormedKeywords(r)
    ensures forall k :: k in r <==> exists i :: 0 <= i < |ws| && ws[i] != "" && Lower(ws[i]) == k
  {
    if ws == [] then {}
    else
      var init, w := ws[..|ws| - 1], ws[|ws| - 1];
      assert forall i :: 0 <= i < |init| ==> init[i] == ws[i];
      if w == "" then KeywordSet(init)
      else LowerFacts(w); KeywordSet(init) + {Lower(w)}
  }

  /** The checks of `Local.__init__`, in the order it makes them; on success
      the keyword set the new location starts with. `None` for the keyword
      list gives the empty set. */
  function Validate(name: string, district: string, keywords: Option<seq<string>>)
    : (r: Result<set<string>, LocationError>)
    ensures r.Success? <==>
      name != "" && district != "" && (keywords.Some? ==> |keywords.value| <= MaxKeywords)
    ensures r.Failure? ==> (r.error == EmptyName <==> name == "")
    ensures r.Failure? && name != "" ==> (r.error == EmptyDistrict <==> district == "")
    ensures r.Success? ==> |r.value| <= MaxKeywords && WellFormedKeywords(r.value)
    ensures r.Success? ==> forall k :: k in r.value <==>
      keywords.Some? && exists i :: 0 <= i < |keywords.value| && keywords.value[i] != "" && Lower(keywords.value[i]) == k
  {
    if name == "" then Failure(EmptyName)
    else if district == "" then Failure(EmptyDistrict)
    else if keywords.None? then Success({})
    else if |keywords.value| > MaxKeywords then Failure(TooManyKeywords)
    else Success(KeywordSet(keywords.value))
  }

  class Location {
    /** `designacao`: the name, case preserved. */
    const name: string
    /** `freguesia`: the parish. */
    const district: string
    /** `coords_gps`. */
    const coords: Coords
    /** `palavras_chave`, the one field the source updates after construction. */
    var keywords: set<string>

    ghost predicate Valid()
      reads this
    {
      && name != ""
      && district != ""
      && |keywords| <= MaxKeywords
      && WellFormedKeywords(keywords)
    }

    /** Stores already-checked fields; `Create` is the checking constructor. */
    constructor (name: string, district: string, coords: Coords, keywords: set<string>)
      requires name != "" && district != ""
      requires |keywords| <= MaxKeywords && WellFormedKeywords(keywords)
      ensures Valid()
      ensures this.name == name && this.district == district && this.coords == coords
      ensures this.keywords == keywords
    {
      this.name := name;
      this.district := district;
      this.coords := coords;
      this.keywords := keywords;
    }

    /** `Local(designacao, freguesia, coords_gps, palavras_chave)`: fails with
        the constructor's `ValueError` cases, otherwise yields a valid location. */
    static method Create(name: string, district: string, coords: Coords, keywords: Option<seq<string>>)
      returns (r: Result<Location, LocationError>)
      ensures r.Success? <==> Validate(name, district, keywords).Success?
      ensures r.Failure? ==> r.error == Validate(name, district, keywords).error
      ensures r.Success? ==> fresh(r.value) && r.value.Valid()
      ensures r.Success? ==> r.value.name == name && r.value.district == district && r.value.coords == coords
      ensures r.Success? ==> r.value.keywords == Validate(name, district, keywords).value
    {
      var checked := Validate(name, district, keywords);
      if checked.Failure? {
        return Failure(checked.error);
      }
      var l := new Location(name, district, coords, checked.value);
      return Success(l);
    }

    /** `adicionar_palavra_chave`: adds the lower-cased word while there is
        room and the word is non-empty; otherwise nothing changes. */
    method AddKeyword(word: string)
      requires Valid()
      modifies this
      ensures Valid()
      ensures keywords ==
        if |old(keywords)| < MaxKeywords && word != "" then old(keywords) + {Lower(word)} else old(keywords)
    {
      if |keywords| < MaxKeywords {
        if word != "" {
          LowerFacts(word);
          keywords := keywords + {Lower(word)};
        }
      }
    }

    /** `remover_palavra_chave`: discards the lower-cased word if present. */
    method RemoveKeyword(word: string)
      requires Valid()
      modifies this
      ensures Valid()
      ensures keywords == old(keywords) - {Lower(word)}
    {
      keywords := keywords - {Lower(word)};
    }
  }

  /** The key `__hash__` hashes and `__eq__`/`__lt__` compare: the lower-cased name. */
  function Identity(l: Location): (r: string)
    ensures |r| == |l.name| && IsLower(r)
  {
    LowerFacts(l.name);
    Lower(l.name)
  }

  /** `__eq__`: names equal up to case. */
  predicate SameLocation(a: Location, b: Location) {
    Identity(a) == Identity(b)
  }

  /** `__lt__`: names in order, ignoring case. */
  predicate NameBefore(a: Location, b: Location) {
    Less(Identity(a), Identity(b))
  }

  /** `__eq__` and `__lt__` together order locations totally: exactly one of
      a < b, a == b, b < a holds. */
  lemma NameTrichotomy(a: Location, b: Location)
    ensures SameLocation(a, b) || NameBefore(a, b) || NameBefore(b, a)
    ensures SameLocation(a, b) ==> !NameBefore(a, b) && !NameBefore(b, a)
    ensures NameBefore(a, b) ==> !NameBefore(b, a)
  {
    LessTotal(Identity(a), Identity(b));
    LessAsymmetric(Identity(a), Identity(b));
    LessIrreflexive(Identity(a));
  }

  lemma NameBeforeTransitive(a: Location, b: Location, c: Location)
    requires NameBefore(a, b) && NameBefore(b, c)
    ensures NameBefore(a, c)
  {
    LessTransitive(Identity(a), Identity(b), Identity(c));
  }

  /** `__eq__` (and so the key `__hash__` hashes) ignores exactly the case of
      letters: two locations are the same iff their names have equal length
      and differ, position by position, at most in the case of a letter. */
  lemma {:induction false} SameLocationIffCaseVariants(a: Location, b: Location)
    ensures SameLocation(a, b) <==>
      |a.name| == |b.name| && forall i :: 0 <= i < |a.name| ==> CaseVariant(a.name[i], b.name[i])
  {
    if SameLocation(a, b) {
      forall i | 0 <= i < |a.name|
        ensures CaseVariant(a.name[i], b.name[i])
      {
        assert Lower(a.name)[i] == Lower(b.name)[i];
      }
    }
    if |a.name| == |b.name| && forall i :: 0 <= i < |a.name| ==> CaseVariant(a.name[i], b.name[i]) {
      assert forall i :: 0 <= i < |a.name| ==> Lower(a.name)[i] == Lower(b.name)[i];
    }
  }

  /** Removing a keyword twice is the same as removing it once, and keeps
      every other keyword. */
  lemma RemoveKeywordIdempotent(ks: set<string>, word: string)
    ensures (ks - {Lower(word)}) - {Lower(word)} == ks - {Lower(word)}
    ensures forall k :: k in ks && k != Lower(word) ==> k in ks - {Lower(word)}
  {
  }
}
