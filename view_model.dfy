/**
  The `filteredAndSortedUsers` memo of the address-book page: a copy of the
  contact list, narrowed by the search query, then by the company filter,
  then sorted in place by the chosen field and direction.
 */
module ViewModel {
  import opened Wrappers
  import opened Strings
  import opened Seqs
  import opened Contacts
  import opened Controls
  import opened StableSort

  /**
    The search test: the lower-cased query occurs in the lower-cased name,
    email or company name, or in the phone number as it is (not lower-cased).
   */
  predicate MatchesSearch(u: User, query: string) {
    var q := ToLower(query);
    || Contains(ToLower(u.name), q)
    || Contains(ToLower(u.email), q)
    || Contains(ToLower(u.company.name), q)
    || Contains(u.phone, q)
  }

  function SearchTest(query: string): User -> bool {
    (u: User) => MatchesSearch(u, query)
  }

  function CompanyTest(company: string): User -> bool {
    (u: User) => u.company.name == company
  }

  /** Whether a user survives both filter steps. */
  predicate Passes(u: User, query: string, companyFilter: string) {
    && (Trim(query) == [] || MatchesSearch(u, query))
    && (companyFilter == AllCompanies || u.company.name == companyFilter)
  }

  /** The two filter steps, in source order: search (unless the trimmed query is empty), then company. */
  function Selected(users: seq<User>, query: string, companyFilter: string): seq<User> {
    var searched := if Trim(query) == [] then users else Filter(users, SearchTest(query));
    if companyFilter == AllCompanies then searched else Filter(searched, CompanyTest(companyFilter))
  }

  /**
    A user occurs in the selection as often as in the contact list when it
    passes both steps, and not at all otherwise.
   */
  lemma SelectedCount(users: seq<User>, query: string, companyFilter: string, u: User)
    ensures multiset(Selected(users, query, companyFilter))[u] ==
      if Passes(u, query, companyFilter) then multiset(users)[u] else 0
  {
    var searched := if Trim(query) == [] then users else Filter(users, SearchTest(query));
    if Trim(query) != [] {
      FilterCount(users, SearchTest(query), u);
    }
    if companyFilter != AllCompanies {
      FilterCount(searched, CompanyTest(companyFilter), u);
    }
  }

  /**
    The users present in the selection are exactly the present users that
    pass both steps: with a company chosen, only that company's users
    remain, and all of them that match the search.
   */
  lemma SelectedMembers(users: seq<User>, query: string, companyFilter: string)
    ensures forall u :: u in Selected(users, query, companyFilter) <==> u in users && Passes(u, query, companyFilter)
    ensures companyFilter != AllCompanies ==>
      forall u :: u in Selected(users, query, companyFilter) ==> u.company.name == companyFilter
  {
    forall u
      ensures u in Selected(users, query, companyFilter) <==> u in users && Passes(u, query, companyFilter)
    {
      SelectedCount(users, query, companyFilter, u);
      assert u in users <==> u in multiset(users);
    }
  }

  /** The selection is never longer than the contact list. */
  lemma SelectedLength(users: seq<User>, query: string, companyFilter: string)
    ensures |Selected(users, query, companyFilter)| <= |users|
  {
  }

  /** An all-white-space query with every company shown keeps the whole list, in order. */
  lemma BlankQueryKeepsAll(users: seq<User>, query: string)
    requires forall i :: 0 <= i < |query| ==> IsWhiteSpace(query[i])
    ensures Selected(users, query, AllCompanies) == users
  {
  }

  /** The lower-cased field the comparator reads. */
  function Key(field: SortField, u: User): string {
    match field
    case ByName => ToLower(u.name)
    case ByEmail => ToLower(u.email)
    case ByCompany => ToLower(u.company.name)
  }

  function SortKey(field: SortField): User -> string {
    (u: User) => Key(field, u)
  }

  /** The memo's value: nothing while the list is absent, else the sorted selection. */
  function VisibleUsers(users: Option<seq<User>>, query: string, companyFilter: string,
                        field: SortField, dir: SortDirection): seq<User>
  {
    match users
    case None => []
    case Some(us) => SortBy(Selected(us, query, companyFilter), SortKey(field), dir)
  }

  /** `filteredAndSortedUsers`, step by step as page.tsx runs it. */
  method FilteredAndSortedUsers(users: Option<seq<User>>, searchQuery: string, companyFilter: string,
                                sortField: SortField, sortDirection: SortDirection)
    returns (result: seq<User>)
    ensures result == VisibleUsers(users, searchQuery, companyFilter, sortField, sortDirection)
    ensures users.None? ==> result == []
    ensures users.Some? ==> |result| <= |users.value|
    ensures users.Some? ==> forall u ::
      multiset(result)[u] == if Passes(u, searchQuery, companyFilter) then multiset(users.value)[u] else 0
    ensures forall i, j :: 0 <= i < j < |result| ==>
      if sortDirection == Asc then Compare(Key(sortField, result[i]), Key(sortField, result[j])) <= 0
      else Compare(Key(sortField, result[i]), Key(sortField, result[j])) >= 0
    ensures users.Some? ==> forall k ::
      WithKey(result, SortKey(sortField), k) == WithKey(Selected(users.value, searchQuery, companyFilter), SortKey(sortField), k)
  {
    if users.None? {
      return [];
    }
    var r := users.value;
    if Trim(searchQuery) != [] {
      r := Filter(r, SearchTest(searchQuery));
    }
    if companyFilter != AllCompanies {
      r := Filter(r, CompanyTest(companyFilter));
    }
    var a := new User[|r|](i requires 0 <= i < |r| => r[i]);
    assert a[..] == r;
    SortInPlace(a, SortKey(sortField), sortDirection);
    result := a[..];
    VisibleUsersSpec(users.value, searchQuery, companyFilter, sortField, sortDirection);
  }

  /** What the memo's value is: the selection, counted exactly, sorted, and stable within ties. */
  lemma VisibleUsersSpec(users: seq<User>, query: string, companyFilter: string,
                         field: SortField, dir: SortDirection)
    ensures var v := VisibleUsers(Some(users), query, companyFilter, field, dir);
      && |v| <= |users|
      && (forall u :: multiset(v)[u] == if Passes(u, query, companyFilter) then multiset(users)[u] else 0)
      && (forall i, j :: 0 <= i < j < |v| ==>
            if dir == Asc then Compare(Key(field, v[i]), Key(field, v[j])) <= 0
            else Compare(Key(field, v[i]), Key(field, v[j])) >= 0)
      && (forall k :: WithKey(v, SortKey(field), k) == WithKey(Selected(users, query, companyFilter), SortKey(field), k))
  {
    var s := Selected(users, query, companyFilter);
    var v := SortBy(s, SortKey(field), dir);
    SortByPermutes(s, SortKey(field), dir);
    SortBySorted(s, SortKey(field), dir);
    forall u
      ensures multiset(v)[u] == if Passes(u, query, companyFilter) then multiset(users)[u] else 0
    {
      SelectedCount(users, query, companyFilter, u);
    }
    forall k
      ensures WithKey(v, SortKey(field), k) == WithKey(s, SortKey(field), k)
    {
      SortByStable(s, SortKey(field), dir, k);
    }
  }

  /**
    Clicking the active sort field again (ascending to descending) exactly
    reverses the order of any two shown users with different keys.
   */
  lemma ToggleDirectionReverses(users: seq<User>, query: string, companyFilter: string, field: SortField,
                                x: User, y: User)
    requires Key(field, x) != Key(field, y)
    requires x in users && Passes(x, query, companyFilter)
    requires y in users && Passes(y, query, companyFilter)
    ensures Precedes(VisibleUsers(Some(users), query, companyFilter, field, Asc), x, y) <==>
            Precedes(VisibleUsers(Some(users), query, companyFilter, field, Desc), y, x)
  {
    SelectedMembers(users, query, companyFilter);
    ToggleReverses(Selected(users, query, companyFilter), SortKey(field), x, y);
  }

  /** Toggling the direction leaves users with equal keys in the same relative order. */
  lemma ToggleDirectionKeepsTies(users: seq<User>, query: string, companyFilter: string, field: SortField)
    ensures forall k ::
      WithKey(VisibleUsers(Some(users), query, companyFilter, field, Asc), SortKey(field), k) ==
      WithKey(VisibleUsers(Some(users), query, companyFilter, field, Desc), SortKey(field), k)
  {
    forall k
      ensures WithKey(VisibleUsers(Some(users), query, companyFilter, field, Asc), SortKey(field), k) ==
              WithKey(VisibleUsers(Some(users), query, companyFilter, field, Desc), SortKey(field), k)
    {
      ToggleKeepsTies(Selected(users, query, companyFilter), SortKey(field), k);
    }
  }
}
