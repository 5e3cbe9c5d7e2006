/** Membership categories with their borrowing limit and membership length (MemberType.java). */
module MemberTypes {
  import opened Wrappers
  import opened Text
  import opened Lists

  datatype MemberType = Student | Faculty | Staff | Public | Researcher | SeniorCitizen
  {
    /** The display name, which is also what `toString` returns. */
    function DisplayName(): string
    {
      match this
      case Student => "Student"
      case Faculty => "Faculty"
      case Staff => "Staff"
      case Public => "Public"
      case Researcher => "Researcher"
      case SeniorCitizen => "Senior Citizen"
    }

    /** How many books a member of this type may hold at once. */
    function MaxBooksAllowed(): nat
    {
      match this
      case Student => 5
      case Faculty => 10
      case Staff => 7
      case Public => 3
      case Researcher => 15
      case SeniorCitizen => 5
    }

    /** How many months a new membership of this type lasts. */
    function MembershipDurationMonths(): nat
    {
      match this
      case Student => 12
      case Faculty => 24
      case Staff => 12
      case Public => 6
      case Researcher => 12
      case SeniorCitizen => 12
    }

    /** Position in declaration order (Java's `ordinal()`). */
    function Ordinal(): nat
    {
      match this
      case Student => 0
      case Faculty => 1
      case Staff => 2
      case Public => 3
      case Researcher => 4
      case SeniorCitizen => 5
    }
  }

  /** `MemberType.values()`, in declaration order. */
  const AllMemberTypes: seq<MemberType> := [Student, Faculty, Staff, Public, Researcher, SeniorCitizen]

  /** Every type allows at least one book and lasts at least one month. */
  lemma LimitsPositive(t: MemberType)
    ensures t.MaxBooksAllowed() > 0 && t.MembershipDurationMonths() > 0
  {
  }

  function NameMatches(name: string): MemberType -> bool
  {
    (t: MemberType) => EqualsIgnoreCase(t.DisplayName(), name)
  }

  /** `MemberType.fromDisplayName`: the first type whose display name equals `name`
      ignoring case, and PUBLIC when there is none. */
  function FromDisplayName(name: string): (r: MemberType)
    ensures (exists t: MemberType :: EqualsIgnoreCase(t.DisplayName(), name)) ==> EqualsIgnoreCase(r.DisplayName(), name)
    ensures (forall t: MemberType :: !EqualsIgnoreCase(t.DisplayName(), name)) ==> r == Public
  {
    match FirstIndex(AllMemberTypes, NameMatches(name))
    case Some(i) => AllMemberTypes[i]
    case None => NoMatchAnywhere(name); Public
  }

  lemma NoMatchAnywhere(name: string)
    requires FirstIndex(AllMemberTypes, NameMatches(name)).None?
    ensures forall t: MemberType :: !EqualsIgnoreCase(t.DisplayName(), name)
  {
    forall t: MemberType ensures !EqualsIgnoreCase(t.DisplayName(), name) {
      NotMatchedWhenScanFails(name, t);
    }
  }

  lemma NotMatchedWhenScanFails(name: string, t: MemberType)
    requires FirstIndex(AllMemberTypes, NameMatches(name)).None?
    ensures !NameMatches(name)(t)
  {
    assert AllMemberTypes[t.Ordinal()] == t;
  }

  /** The six display names are pairwise different even ignoring case. */
  lemma DisplayNamesDistinctIgnoringCase(a: MemberType, b: MemberType)
    requires EqualsIgnoreCase(a.DisplayName(), b.DisplayName())
    ensures a == b
  {
    EqualIgnoringCaseSameKey(a.DisplayName(), b.DisplayName());
  }

  /** Looking a type up by its own display name gives that type back. */
  lemma FromDisplayNameRoundTrip(t: MemberType)
    ensures FromDisplayName(t.DisplayName()) == t
  {
    var r := FromDisplayName(t.DisplayName());
    assert EqualsIgnoreCase(t.DisplayName(), t.DisplayName());
    DisplayNamesDistinctIgnoringCase(r, t);
  }

  /** The type picked from the 1-based menu number, or None for a number out of range. */
  function FromMenuChoice(choice: int): (r: Option<MemberType>)
    ensures r.Some? <==> 1 <= choice <= |AllMemberTypes|
    ensures r.Some? ==> r.value == AllMemberTypes[choice - 1]
  {
    if choice < 1 || choice > |AllMemberTypes| then None else Some(AllMemberTypes[choice - 1])
  }
}
