/** The subject categories of a book (BookCategory.java). */
module BookCategories {
  import opened Wrappers
  import opened Text
  import opened Lists

  datatype BookCategory =
    | Fiction | NonFiction | ScienceTechnology | HistoryPolitics | BusinessEconomics
    | HealthMedicine | ArtsLiterature | EducationReference | ChildrenYoungAdult
    | ReligionPhilosophy | TravelGeography | BiographyAutobiography | ComputerProgramming | Other
  {
    /** The display name, which is also what `toString` returns. */
    function DisplayName(): string
    {
      match this
      case Fiction => "Fiction"
      case NonFiction => "Non-Fiction"
      case ScienceTechnology => "Science & Technology"
      case HistoryPolitics => "History & Politics"
      case BusinessEconomics => "Business & Economics"
      case HealthMedicine => "Health & Medicine"
      case ArtsLiterature => "Arts & Literature"
      case EducationReference => "Education & Reference"
      case ChildrenYoungAdult => "Children & Young Adult"
      case ReligionPhilosophy => "Religion & Philosophy"
      case TravelGeography => "Travel & Geography"
      case BiographyAutobiography => "Biography & Autobiography"
      case ComputerProgramming => "Computer & Programming"
      case Other => "Other"
    }

    /** Position in declaration order (Java's `ordinal()`). */
    function Ordinal(): nat
    {
      match this
      case Fiction => 0
      case NonFiction => 1
      case ScienceTechnology => 2
      case HistoryPolitics => 3
      case BusinessEconomics => 4
      case HealthMedicine => 5
      case ArtsLiterature => 6
      case EducationReference => 7
      case ChildrenYoungAdult => 8
      case ReligionPhilosophy => 9
      case TravelGeography => 10
      case BiographyAutobiography => 11
      case ComputerProgramming => 12
      case Other => 13
    }
  }

  /** `BookCategory.values()`, in declaration order. */
  const AllCategories: seq<BookCategory> :=
    [Fiction, NonFiction, ScienceTechnology, HistoryPolitics, BusinessEconomics,
     HealthMedicine, ArtsLiterature, EducationReference, ChildrenYoungAdult,
     ReligionPhilosophy, TravelGeography, BiographyAutobiography, ComputerProgramming, Other]

  lemma AllCategoriesComplete()
    ensures forall c: BookCategory :: c in AllCategories
  {
    forall c: BookCategory ensures c in AllCategories {
      assert AllCategories[c.Ordinal()] == c;
    }
  }

  function NameMatches(name: string): BookCategory -> bool
  {
    (c: BookCategory) => EqualsIgnoreCase(c.DisplayName(), name)
  }

  /** `BookCategory.fromDisplayName`: the first category whose display name equals `name`
      ignoring case, and OTHER when there is none. */
  function FromDisplayName(name: string): (r: BookCategory)
    ensures (exists c: BookCategory :: EqualsIgnoreCase(c.DisplayName(), name)) ==> EqualsIgnoreCase(r.DisplayName(), name)
    ensures (forall c: BookCategory :: !EqualsIgnoreCase(c.DisplayName(), name)) ==> r == Other
  {
    match FirstIndex(AllCategories, NameMatches(name))
    case Some(i) => AllCategories[i]
    case None => NoMatchAnywhere(name); Other
  }

  lemma NoMatchAnywhere(name: string)
    requires FirstIndex(AllCategories, NameMatches(name)).None?
    ensures forall c: BookCategory :: !EqualsIgnoreCase(c.DisplayName(), name)
  {
    forall c: BookCategory ensures !EqualsIgnoreCase(c.DisplayName(), name) {
      NotMatchedWhenScanFails(name, c);
    }
  }

  lemma NotMatchedWhenScanFails(name: string, c: BookCategory)
    requires FirstIndex(AllCategories, NameMatches(name)).None?
    ensures !NameMatches(name)(c)
  {
    AllCategoriesComplete();
    FirstIndexNoneMember(AllCategories, NameMatches(name), c);
  }

  /** The fourteen display names are pairwise different even ignoring case. */
  lemma DisplayNamesDistinctIgnoringCase(a: BookCategory, b: BookCategory)
    requires EqualsIgnoreCase(a.DisplayName(), b.DisplayName())
    ensures a == b
  {
    EqualIgnoringCaseSameKey(a.DisplayName(), b.DisplayName());
    KeyOfDisplayName(a);
    KeyOfDisplayName(b);
    KeyInjective(a, b);
  }

  /** Length and first two letters, lower-cased, of each display name. */
  function Key(c: BookCategory): (int, char, char)
  {
    match c
    case Fiction => (7, 'f', 'i')
    case NonFiction => (11, 'n', 'o')
    case ScienceTechnology => (20, 's', 'c')
    case HistoryPolitics => (18, 'h', 'i')
    case BusinessEconomics => (20, 'b', 'u')
    case HealthMedicine => (17, 'h', 'e')
    case ArtsLiterature => (17, 'a', 'r')
    case EducationReference => (21, 'e', 'd')
    case ChildrenYoungAdult => (22, 'c', 'h')
    case ReligionPhilosophy => (21, 'r', 'e')
    case TravelGeography => (18, 't', 'r')
    case BiographyAutobiography => (25, 'b', 'i')
    case ComputerProgramming => (22, 'c', 'o')
    case Other => (5, 'o', 't')
  }

  lemma KeyOfDisplayName(c: BookCategory)
    ensures |c.DisplayName()| >= 2 && CaseKey(c.DisplayName()) == Key(c)
  {
  }

  /** No two categories share a key. */
  lemma KeyInjective(a: BookCategory, b: BookCategory)
    requires Key(a) == Key(b)
    ensures a == b
  {
  }

  /** Looking a category up by its own display name gives that category back. */
  lemma FromDisplayNameRoundTrip(c: BookCategory)
    ensures FromDisplayName(c.DisplayName()) == c
  {
    var r := FromDisplayName(c.DisplayName());
    assert EqualsIgnoreCase(c.DisplayName(), c.DisplayName());
    DisplayNamesDistinctIgnoringCase(r, c);
  }

  /** The category picked from the 1-based menu number, or None for a number out of range. */
  function FromMenuChoice(choice: int): (r: Option<BookCategory>)
    ensures r.Some? <==> 1 <= choice <= |AllCategories|
    ensures r.Some? ==> r.value == AllCategories[choice - 1]
  {
    if choice < 1 || choice > |AllCategories| then None else Some(AllCategories[choice - 1])
  }
}
