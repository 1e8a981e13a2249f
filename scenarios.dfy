/** Concrete cases of the view model's behaviour. */
module Scenarios {
  import opened Wrappers
  import opened Strings
  import opened Contacts
  import opened Controls
  import opened CompanyList
  import opened ViewModel
  import opened StableSort

  function Contact(id: int, name: string, email: string, phone: string, company: string): User {
    User(id, name, email, phone, "example.com", Company(company, "Building the future"),
         Address("Unknown", "Unknown", "00000"))
  }

  /**
    Name, email and company name are matched case-insensitively, the phone
    number literally: "cafe" finds "user@CAFE.com" and "555-cafe" but not
    "555-CAFE", and neither does "CAFE", since the query is lower-cased too.
   */
  lemma SearchFindsLoweredEmail()
    ensures MatchesSearch(Contact(1, "Ann", "user@CAFE.com", "123", "Acme"), "cafe")
  {
    assert ToLower("cafe") == "cafe";
    assert ToLower("user@CAFE.com") == "user@cafe.com";
    assert OccursAt("user@cafe.com", "cafe", 5);
  }

  lemma SearchFindsPhone()
    ensures MatchesSearch(Contact(2, "Bob", "bob@x.io", "555-cafe", "Acme"), "cafe")
  {
    assert ToLower("cafe") == "cafe";
    assert OccursAt("555-cafe", "cafe", 4);
  }

  lemma SearchPhoneKeepsCase(query: string)
    requires query == "cafe" || query == "CAFE"
    ensures !MatchesSearch(Contact(3, "Bob", "bob@x.io", "555-CAFE", "Acme"), query)
  {
    assert ToLower("cafe") == "cafe" && ToLower("CAFE") == "cafe";
    assert ToLower("Bob") == "bob";
    assert ToLower("Acme") == "acme";
    assert ToLower("bob@x.io") == "bob@x.io";
    AbsentCharNotContained("555-CAFE", "cafe", 0);
    AbsentCharNotContained("bob", "cafe", 0);
    AbsentCharNotContained("acme", "cafe", 2);
    AbsentCharNotContained("bob@x.io", "cafe", 0);
  }

  /** The query is not trimmed before matching: "ann" finds "Ann", but "ann " does not. */
  lemma SearchFindsName()
    ensures MatchesSearch(Contact(1, "Ann", "a@b.io", "1", "Acme"), "ann")
  {
    assert ToLower("ann") == "ann";
    assert ToLower("Ann") == "ann";
    assert OccursAt("ann", "ann", 0);
  }

  lemma SearchIsUntrimmed()
    ensures !MatchesSearch(Contact(1, "Ann", "a@b.io", "1", "Acme"), "ann ")
  {
    assert ToLower("ann ") == "ann ";
    assert ToLower("Ann") == "ann";
    assert ToLower("Acme") == "acme";
    assert ToLower("a@b.io") == "a@b.io";
    AbsentCharNotContained("ann", "ann ", 3);
    AbsentCharNotContained("a@b.io", "ann ", 3);
    AbsentCharNotContained("acme", "ann ", 3);
    AbsentCharNotContained("1", "ann ", 3);
  }

  function MixedCaseUsers(): seq<User> {
    [Contact(1, "A", "a@x", "1", "Acme"), Contact(2, "B", "b@x", "2", "acme"), Contact(3, "C", "c@x", "3", "Beta")]
  }

  lemma DistinctKeepsFirstOccurrences()
    ensures Distinct(CompanyNames(MixedCaseUsers())) == ["Acme", "acme", "Beta"]
  {
    var names := CompanyNames(MixedCaseUsers());
    assert names == ["Acme", "acme", "Beta"];
    assert names[..2] == ["Acme", "acme"] && names[..2][..1] == ["Acme"] && ["Acme"][..0] == [];
    assert Distinct(["Acme"]) == ["Acme"];
    assert Distinct(["Acme", "acme"]) == ["Acme", "acme"];
  }

  lemma SortNamesByCode()
    ensures SortNames(["Acme", "acme", "Beta"]) == ["Acme", "Beta", "acme"]
  {
    var d := ["Acme", "acme", "Beta"];
    assert Compare("Acme", "acme") < 0 && Compare("acme", "Beta") > 0 && Compare("Acme", "Beta") < 0;
    assert d[..2] == ["Acme", "acme"] && d[..2][..1] == ["Acme"] && ["Acme"][..0] == [];
    assert SortNames(["Acme"]) == ["Acme"];
    assert SortNames(["Acme", "acme"]) == ["Acme", "acme"];
    assert InsertBack(["Acme"], "Beta", Identity, Asc) == ["Acme", "Beta"];
  }

  /** Company names differing only in case stay separate and sort by character code. */
  lemma CompaniesKeepCase()
    ensures Companies(Some(MixedCaseUsers())) == ["Acme", "Beta", "acme"]
  {
    DistinctKeepsFirstOccurrences();
    SortNamesByCode();
  }
}
