/**
  The list behind the company drop-down: every company name occurring in
  the contact list, once each, in ascending default string order.
 */
module CompanyList {
  import opened Wrappers
  import opened Strings
  import opened Contacts
  import opened Controls
  import opened StableSort

  /** `users.map(u => u.company.name)` */
  function CompanyNames(users: seq<User>): seq<string> {
    seq(|users|, i requires 0 <= i < |users| => users[i].company.name)
  }

  /**
    `[...new Set(names)]`: the first occurrence of each name, in order of
    first occurrence. Each name of `names` occurs in it exactly once.
   */
  function Distinct(names: seq<string>): (r: seq<string>)
    ensures forall x :: multiset(r)[x] == if x in names then 1 else 0
  {
    if names == [] then []
    else
      var front, last := names[..|names| - 1], names[|names| - 1];
      assert names == front + [last];
      var d := Distinct(front);
      assert forall x :: x in d <==> x in multiset(d);
      if last in d then d else d + [last]
  }

  /** The key of the default `sort()`: the string itself. */
  function Identity(s: string): string {
    s
  }

  /** `names.sort()` with no comparator: ascending by `Compare`, stable. */
  function SortNames(names: seq<string>): seq<string> {
    SortBy(names, Identity, Asc)
  }

  /** A sequence in which no value occurs twice has no two equal positions. */
  lemma NoRepeats(r: seq<string>)
    requires forall x :: multiset(r)[x] <= 1
    ensures forall i, j :: 0 <= i < j < |r| ==> r[i] != r[j]
  {
    forall i, j | 0 <= i < j < |r|
      ensures r[i] != r[j]
    {
      var v := r[j];
      assert r == r[..j] + r[j..];
      assert multiset(r)[v] == multiset(r[..j])[v] + multiset(r[j..])[v];
      assert r[j..][0] == v;
      assert v in multiset(r[j..]);
      assert v !in multiset(r[..j]);
      assert r[..j][i] == r[i];
    }
  }

  /**
    Deduplicating and then sorting keeps exactly the names that occur and
    puts them in strictly ascending order.
   */
  lemma SortedDistinctNames(names: seq<string>)
    ensures forall x :: x in SortNames(Distinct(names)) <==> x in names
    ensures forall i, j :: 0 <= i < j < |SortNames(Distinct(names))| ==>
      Compare(SortNames(Distinct(names))[i], SortNames(Distinct(names))[j]) < 0
  {
    var d := Distinct(names);
    var r := SortNames(d);
    SortByPermutes(d, Identity, Asc);
    SortBySorted(d, Identity, Asc);
    NoRepeats(r);
    assert forall x :: x in r <==> x in multiset(r);
    forall i, j | 0 <= i < j < |r|
      ensures Compare(r[i], r[j]) < 0
    {
      CompareZero(r[i], r[j]);
    }
  }

  /**
    The `companies` memo: empty while the contact list is absent; otherwise
    exactly the company names that occur, strictly ascending, so each once.
   */
  function Companies(users: Option<seq<User>>): (r: seq<string>)
    ensures users.None? ==> r == []
    ensures forall x :: x in r <==>
      users.Some? && exists i :: 0 <= i < |users.value| && users.value[i].company.name == x
    ensures forall i, j :: 0 <= i < j < |r| ==> Compare(r[i], r[j]) < 0
  {
    match users
    case None => []
    case Some(us) =>
      var names := CompanyNames(us);
      SortedDistinctNames(names);
      assert |names| == |us| && forall i :: 0 <= i < |us| ==> names[i] == us[i].company.name;
      assert forall x :: x in names <==> exists i :: 0 <= i < |us| && us[i].company.name == x;
      SortNames(Distinct(names))
  }
}
