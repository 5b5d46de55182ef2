/** The contact list of `static/js/modules/contacts.js`: the search filter
    and the sort of `renderContacts`, the sort-header toggle, the distinct
    group options, the username check of `addContact`, and the option
    visibility of `filterContacts`. `localeCompare` is modelled by the
    code-point order `LexCompare`. */
module Contacts {
  import opened Common
  import StableSort

  /** An entry of `/api/users`; `None` for a missing or null key. */
  datatype Contact = Contact(chatId: int, name: Option<string>, username: Option<string>, group: Option<string>)

  // ---------------------------------------------------------------------
  // Search
  // ---------------------------------------------------------------------

  /** `value && value.toLowerCase().includes(query)` for a lower-cased query. */
  predicate FieldMatches(value: Option<string>, query: string)
  {
    Truthy(value) && Contains(Lower(value.value), query)
  }

  predicate ContactMatches(c: Contact, query: string)
  {
    FieldMatches(c.name, query) || FieldMatches(c.username, query) || FieldMatches(c.group, query)
  }

  /** The search step of `renderContacts`: no (or an empty) query keeps
      every contact, otherwise the contacts whose name, username or group
      contains the query, ignoring case. */
  function Search(users: seq<Contact>, query: Option<string>): seq<Contact>
  {
    if !Truthy(query) then users
    else Filter(users, (c: Contact) => ContactMatches(c, Lower(query.value)))
  }

  /** An empty query keeps everything; otherwise exactly the matching
      contacts survive, in list order; the query's letter case does not
      matter. */
  lemma {:induction false} SearchSpec(users: seq<Contact>, query: Option<string>)
    ensures !Truthy(query) ==> Search(users, query) == users
    ensures Truthy(query) ==>
      var r := Search(users, query);
      && (forall k :: 0 <= k < |r| ==> r[k] in users && ContactMatches(r[k], Lower(query.value)))
      && (forall k :: 0 <= k < |users| && ContactMatches(users[k], Lower(query.value)) ==> users[k] in r)
    ensures Truthy(query) ==> Search(users, Some(Lower(query.value))) == Search(users, query)
  {
    if Truthy(query) {
      LowerIdempotent(query.value);
    }
  }

  /** Searching a concatenation searches each part. */
  lemma {:induction false} SearchConcat(a: seq<Contact>, b: seq<Contact>, query: Option<string>)
    ensures Search(a + b, query) == Search(a, query) + Search(b, query)
  {
    if Truthy(query) {
      FilterConcat(a, b, (c: Contact) => ContactMatches(c, Lower(query.value)));
    }
  }

  // ---------------------------------------------------------------------
  // Sort
  // ---------------------------------------------------------------------

  /** Code-point order of strings: negative, zero or positive. */
  function LexCompare(a: string, b: string): int
  {
    if a == [] && b == [] then 0
    else if a == [] then -1
    else if b == [] then 1
    else if a[0] < b[0] then -1
    else if a[0] > b[0] then 1
    else LexCompare(a[1..], b[1..])
  }

  /** The order is antisymmetric and total: swapping the arguments flips
      the sign, and zero means equal. */
  lemma {:induction false} LexAntisymmetric(a: string, b: string)
    ensures LexCompare(a, b) > 0 <==> LexCompare(b, a) < 0
    ensures LexCompare(a, b) == 0 <==> a == b
  {
    if a != [] && b != [] && a[0] == b[0] {
      LexAntisymmetric(a[1..], b[1..]);
      assert a == [a[0]] + a[1..] && b == [b[0]] + b[1..];
    }
  }

  lemma {:induction false} LexTransitive(a: string, b: string, c: string)
    requires LexCompare(a, b) <= 0 && LexCompare(b, c) <= 0
    ensures LexCompare(a, c) <= 0
  {
    if a != [] && b != [] && c != [] && a[0] == b[0] && b[0] == c[0] {
      LexTransitive(a[1..], b[1..], c[1..]);
    }
  }

  datatype SortField = Name | Username | Group

  /** `contact[field] || ''`; with no sort field chosen every value is ''. */
  function SortValue(c: Contact, field: Option<SortField>): string
  {
    var v := match field
      case None => None
      case Some(Name) => c.name
      case Some(Username) => c.username
      case Some(Group) => c.group;
    if Truthy(v) then v.value else ""
  }

  /** The comparator of `renderContacts`: `asc` compares the values, any
      other order compares them swapped. */
  function ContactCompare(field: Option<SortField>, ascending: bool): (Contact, Contact) -> int
  {
    (a: Contact, b: Contact) =>
      if ascending then LexCompare(SortValue(a, field), SortValue(b, field))
      else LexCompare(SortValue(b, field), SortValue(a, field))
  }

  lemma {:induction false} ContactCompareIsComparator(field: Option<SortField>, ascending: bool)
    ensures StableSort.IsComparator(ContactCompare(field, ascending))
  {
    var cmp := ContactCompare(field, ascending);
    forall a: Contact, b: Contact
      ensures cmp(a, b) > 0 <==> cmp(b, a) < 0
    {
      LexAntisymmetric(SortValue(a, field), SortValue(b, field));
      LexAntisymmetric(SortValue(b, field), SortValue(a, field));
    }
    forall a: Contact, b: Contact, c: Contact | cmp(a, b) <= 0 && cmp(b, c) <= 0
      ensures cmp(a, c) <= 0
    {
      if ascending {
        LexTransitive(SortValue(a, field), SortValue(b, field), SortValue(c, field));
      } else {
        LexTransitive(SortValue(c, field), SortValue(b, field), SortValue(a, field));
      }
    }
  }

  /** The shown list is a permutation of the search result, ordered by the
      field's values ('' for a missing one), ascending or descending; before
      any header is clicked all values are '' and the order is kept. */
  lemma {:induction false} SortContactsSpec(s: seq<Contact>, field: Option<SortField>, ascending: bool)
    ensures var r := StableSort.Sort(s, ContactCompare(field, ascending));
      && multiset(r) == multiset(s)
      && (forall i, j :: 0 <= i < j < |r| ==>
            if ascending then LexCompare(SortValue(r[i], field), SortValue(r[j], field)) <= 0
            else LexCompare(SortValue(r[j], field), SortValue(r[i], field)) <= 0)
      && (field.None? ==> r == s)
  {
    var cmp := ContactCompare(field, ascending);
    StableSort.SortPermutes(s, cmp);
    ContactCompareIsComparator(field, ascending);
    StableSort.SortIsSorted(s, cmp);
    var r := StableSort.Sort(s, cmp);
    forall i, j | 0 <= i < j < |r|
      ensures if ascending then LexCompare(SortValue(r[i], field), SortValue(r[j], field)) <= 0
              else LexCompare(SortValue(r[j], field), SortValue(r[i], field)) <= 0
    {
      assert cmp(r[i], r[j]) <= 0;
    }
    if field.None? {
      assert StableSort.SortedBy(s, cmp);
      StableSort.SortOfSorted(s, cmp);
    }
  }

  /** The header click: the current field flips the order, another field
      is selected ascending. */
  function ClickSort(field: Option<SortField>, ascending: bool, clicked: SortField): (Option<SortField>, bool)
  {
    if field == Some(clicked) then (field, !ascending) else (Some(clicked), true)
  }

  /** Clicking the same header twice restores the order; clicking a new
      header always sorts ascending by it. */
  lemma {:induction false} ClickSortSpec(field: Option<SortField>, ascending: bool, clicked: SortField)
    ensures var (f1, a1) := ClickSort(field, ascending, clicked);
      && f1 == Some(clicked)
      && (field != Some(clicked) ==> a1)
      && (field == Some(clicked) ==> a1 == !ascending)
      && ClickSort(f1, a1, clicked).0 == f1 && ClickSort(f1, a1, clicked).1 == !a1
    ensures field == Some(clicked) ==>
      ClickSort(ClickSort(field, ascending, clicked).0, ClickSort(field, ascending, clicked).1, clicked)
        == (field, ascending)
  {
  }

  // ---------------------------------------------------------------------
  // Group options
  // ---------------------------------------------------------------------

  /** `[...new Set(s)]`: the distinct elements in order of first occurrence. */
  function Distinct(s: seq<string>): (r: seq<string>)
    ensures forall i, j :: 0 <= i < j < |r| ==> r[i] != r[j]
    ensures forall x :: x in r <==> x in s
  {
    if s == [] then []
    else
      var init := s[..|s| - 1];
      var d := Distinct(init);
      assert s == init + [s[|s| - 1]];
      if s[|s| - 1] in d then d else d + [s[|s| - 1]]
  }

  lemma {:induction false} DistinctSnoc(init: seq<string>, x: string)
    ensures Distinct(init + [x]) == if x in Distinct(init) then Distinct(init) else Distinct(init) + [x]
  {
    assert (init + [x])[..|init + [x]| - 1] == init;
  }

  /** The distinct elements appear in the order of their first occurrence. */
  lemma {:induction false} DistinctOrder(s: seq<string>)
    ensures var r := Distinct(s);
      forall i, j :: 0 <= i < j < |r| ==> IndexOf(s, r[i]) < IndexOf(s, r[j])
  {
    if s != [] {
      var init, x := s[..|s| - 1], s[|s| - 1];
      assert s == init + [x];
      DistinctOrder(init);
      DistinctSnoc(init, x);
      var d := Distinct(init);
      forall k | 0 <= k < |d|
        ensures IndexOf(s, d[k]) == IndexOf(init, d[k]) < |init|
      {
        IndexOfPrefix(init, [x], d[k]);
      }
      if x !in d {
        IndexOfAfter(init, x);
        var r := d + [x];
        forall i, j | 0 <= i < j < |r|
          ensures IndexOf(s, r[i]) < IndexOf(s, r[j])
        {
          assert r[i] == d[i];
          if j < |d| {
            assert r[j] == d[j];
          }
        }
      }
    }
  }

  /** The group of a contact, '' when it has none. */
  function GroupOf(c: Contact): string
  {
    if Truthy(c.group) then c.group.value else ""
  }

  /** `users.map(user => user.group).filter(Boolean)`: the non-empty groups,
      in list order. */
  function GroupValues(users: seq<Contact>): (r: seq<string>)
    ensures forall k :: 0 <= k < |r| ==> r[k] != ""
    ensures forall g :: g in r <==> g != "" && exists k :: 0 <= k < |users| && GroupOf(users[k]) == g
  {
    if users == [] then []
    else
      var rest := GroupValues(users[1..]);
      (if GroupOf(users[0]) != "" then [GroupOf(users[0])] else []) + rest
  }

  /** The group options of `renderTaskGroups`. */
  function GroupOptions(users: seq<Contact>): seq<string>
  {
    Distinct(GroupValues(users))
  }

  /** The options are the non-empty groups of the contacts, each once, in
      order of first occurrence. */
  lemma {:induction false} GroupOptionsSpec(users: seq<Contact>)
    ensures var r := GroupOptions(users);
      && (forall i, j :: 0 <= i < j < |r| ==> r[i] != r[j])
      && (forall k :: 0 <= k < |r| ==> r[k] != "")
      && (forall g :: g in r <==> exists k :: 0 <= k < |users| && users[k].group == Some(g) && g != "")
      && (forall i, j :: 0 <= i < j < |r| ==> IndexOf(GroupValues(users), r[i]) < IndexOf(GroupValues(users), r[j]))
  {
    var gv := GroupValues(users);
    var r := GroupOptions(users);
    DistinctOrder(gv);
    assert r == Distinct(gv);
    forall k | 0 <= k < |r|
      ensures r[k] != ""
    {
      assert r[k] in GroupValues(users);
    }
    forall g
      ensures g in r <==> exists k :: 0 <= k < |users| && users[k].group == Some(g) && g != ""
    {
      assert g in r <==> g in GroupValues(users);
    }
  }

  // ---------------------------------------------------------------------
  // Adding a contact, filtering the select options
  // ---------------------------------------------------------------------

  /** `addContact`: the trimmed input is posted only when it is non-empty
      and starts with '@'. */
  function AddContactRequest(input: string): Option<string>
  {
    var username := JsTrim(input);
    if username == "" || !StartsWith(username, "@") then None else Some(username)
  }

  /** A request carries the trimmed input, which starts with '@'; blank
      input or input not starting with '@' after trimming sends nothing. */
  lemma {:induction false} AddContactRequestSpec(input: string)
    ensures AddContactRequest(input).Some? ==>
      AddContactRequest(input).value == JsTrim(input) && AddContactRequest(input).value[0] == '@'
    ensures AllOf(input, IsJsSpace) ==> AddContactRequest(input).None?
    ensures AddContactRequest(input).None? <==> JsTrim(input) == [] || JsTrim(input)[0] != '@'
  {
    StripEmptyIffBlank(input, IsJsSpace);
    var u := JsTrim(input);
    if u != [] {
      assert StartsWith(u, "@") <==> u[0] == '@' by {
        assert u[..1] == [u[0]];
      }
    }
  }

  /** Whether an option text matches the query `q`, the lower-cased,
      trimmed term: `q` is empty or contained in the lower-cased text. */
  predicate Matches(optionText: string, q: string)
  {
    q == "" || Contains(Lower(optionText), q)
  }

  /** Whether an option stays visible for the search term. */
  predicate OptionVisible(optionText: string, searchTerm: string)
  {
    Matches(optionText, JsTrim(Lower(searchTerm)))
  }

  /** Some option `j` with `1 <= j < k` (option 0 is the placeholder)
      matches the query. */
  predicate MatchBefore(texts: seq<string>, q: string, k: int)
    decreases k
  {
    if k <= 1 then false
    else MatchBefore(texts, q, k - 1) || (k - 1 < |texts| && Matches(texts[k - 1], q))
  }

  /** Once an option has matched, it has matched before every later one. */
  lemma {:induction false} MatchBeforeMonotone(texts: seq<string>, q: string, a: int, b: int)
    requires a <= b && MatchBefore(texts, q, a)
    ensures MatchBefore(texts, q, b)
    decreases b - a
  {
    if a < b {
      MatchBeforeMonotone(texts, q, a, b - 1);
    }
  }

  /** `MatchBefore` says what its name says. */
  lemma {:induction false} MatchBeforeSpec(texts: seq<string>, q: string, k: int)
    ensures MatchBefore(texts, q, k) <==> exists j :: 1 <= j < k && j < |texts| && Matches(texts[j], q)
    decreases k
  {
    if k > 1 {
      MatchBeforeSpec(texts, q, k - 1);
      if k - 1 < |texts| && Matches(texts[k - 1], q) {
        assert 1 <= k - 1 < k && k - 1 < |texts| && Matches(texts[k - 1], q);
      }
    }
  }

  /** `filterContacts`. The placeholder option 0 is never touched. Each
      other option in turn is hidden exactly when it does not match; then
      a matching option with a non-blank term is highlighted through
      `new RegExp('(' + searchTerm + ')', 'gi')`, which raises a
      `SyntaxError` when that is no valid pattern (`patternValid` is false;
      the pattern grammar itself is not modelled). The exception ends the
      loop at the first such option: the later options keep their flags,
      and `threw` is set. */
  method FilterContacts(texts: seq<string>, hidden: array<bool>, searchTerm: string, patternValid: bool)
    returns (threw: bool)
    requires hidden.Length == |texts|
    modifies hidden
    ensures hidden.Length > 0 ==> hidden[0] == old(hidden[0])
    ensures var q := JsTrim(Lower(searchTerm));
      var canThrow := !patternValid && JsTrim(searchTerm) != "";
      forall k :: 1 <= k < hidden.Length ==>
        hidden[k] == if canThrow && MatchBefore(texts, q, k) then old(hidden[k]) else !Matches(texts[k], q)
    ensures threw == (!patternValid && JsTrim(searchTerm) != "" && MatchBefore(texts, JsTrim(Lower(searchTerm)), hidden.Length))
  {
    var searchLower := JsTrim(Lower(searchTerm));
    threw := ShowMatching(texts, hidden, searchLower, !patternValid && JsTrim(searchTerm) != "");
  }

  /** The `forEach` of `filterContacts` for the query `q`; `canThrow` says
      whether the highlight of a matching option raises. */
  method ShowMatching(texts: seq<string>, hidden: array<bool>, q: string, canThrow: bool) returns (threw: bool)
    requires hidden.Length == |texts|
    modifies hidden
    ensures hidden.Length > 0 ==> hidden[0] == old(hidden[0])
    ensures forall k :: 1 <= k < hidden.Length ==>
      hidden[k] == if canThrow && MatchBefore(texts, q, k) then old(hidden[k]) else !Matches(texts[k], q)
    ensures threw == (canThrow && MatchBefore(texts, q, hidden.Length))
  {
    threw := false;
    var i := 1;
    while i < hidden.Length
      invariant 1 <= i
      invariant hidden.Length > 0 ==> i <= hidden.Length && hidden[0] == old(hidden[0])
      invariant forall k :: 1 <= k < i && k < hidden.Length ==> hidden[k] == !Matches(texts[k], q)
      invariant forall k :: i <= k < hidden.Length ==> hidden[k] == old(hidden[k])
      invariant canThrow ==> !MatchBefore(texts, q, i)
    {
      var matches := if q != "" then Contains(Lower(texts[i]), q) else true;
      hidden[i] := !matches;
      if matches && canThrow {
        threw := true;
        FirstMatchAt(texts, q, i, hidden.Length);
        return;
      }
      i := i + 1;
    }
    if canThrow {
      NoMatchBefore(texts, q, i, hidden.Length);
    }
  }

  /** When option `i` is the first to match, a match comes before exactly
      the options after it. */
  lemma {:induction false} FirstMatchAt(texts: seq<string>, q: string, i: int, n: int)
    requires 1 <= i < n && i < |texts| && Matches(texts[i], q) && !MatchBefore(texts, q, i)
    ensures forall k :: 1 <= k < n ==> (MatchBefore(texts, q, k) <==> k > i)
    ensures MatchBefore(texts, q, n)
  {
    assert MatchBefore(texts, q, i + 1);
    forall k | 1 <= k < n
      ensures MatchBefore(texts, q, k) <==> k > i
    {
      if k > i {
        MatchBeforeMonotone(texts, q, i + 1, k);
      } else if MatchBefore(texts, q, k) {
        MatchBeforeMonotone(texts, q, k, i);
      }
    }
    MatchBeforeMonotone(texts, q, i + 1, n);
  }

  /** With no match before `i`, there is none before any earlier option. */
  lemma {:induction false} NoMatchBefore(texts: seq<string>, q: string, i: int, n: int)
    requires n <= i && !MatchBefore(texts, q, i)
    ensures forall k :: k < n ==> !MatchBefore(texts, q, k)
  {
    forall k | k < n
      ensures !MatchBefore(texts, q, k)
    {
      if MatchBefore(texts, q, k) {
        MatchBeforeMonotone(texts, q, k, i);
      }
    }
  }

  /** An empty (or blank) term shows every option. */
  lemma {:induction false} BlankTermShowsAll(optionText: string, searchTerm: string)
    requires AllOf(Lower(searchTerm), IsJsSpace)
    ensures OptionVisible(optionText, searchTerm)
  {
    StripEmptyIffBlank(Lower(searchTerm), IsJsSpace);
  }

  // ---------------------------------------------------------------------
  // The view state
  // ---------------------------------------------------------------------

  /** `window.contactSearchQuery`, `contactSortField` and
      `contactSortOrder` (`ascending` is `contactSortOrder === 'asc'`; all
      three start undefined). */
  class ContactView {
    var searchQuery: Option<string>
    var sortField: Option<SortField>
    var ascending: bool

    constructor()
      ensures searchQuery.None? && sortField.None? && !ascending
    {
      searchQuery := None;
      sortField := None;
      ascending := false;
    }

    /** The search box's input handler stores the trimmed text. */
    method SetSearch(input: string)
      modifies this
      ensures searchQuery == Some(JsTrim(input))
      ensures sortField == old(sortField) && ascending == old(ascending)
    {
      searchQuery := Some(JsTrim(input));
    }

    /** A click on a sortable header. */
    method ClickHeader(clicked: SortField)
      modifies this
      ensures (sortField, ascending) == ClickSort(old(sortField), old(ascending), clicked)
      ensures searchQuery == old(searchQuery)
    {
      if sortField == Some(clicked) {
        ascending := !ascending;
      } else {
        sortField := Some(clicked);
        ascending := true;
      }
    }

    /** The rows `renderContacts` shows: the search, then the in-place sort. */
    method Render(users: seq<Contact>) returns (shown: seq<Contact>)
      ensures shown == StableSort.Sort(Search(users, searchQuery), ContactCompare(sortField, ascending))
      ensures multiset(shown) == multiset(Search(users, searchQuery))
    {
      var filtered := Search(users, searchQuery);
      var a := new Contact[|filtered|](k requires 0 <= k < |filtered| => filtered[k]);
      assert a[..] == filtered;
      StableSort.InsertionSort(a, ContactCompare(sortField, ascending));
      shown := a[..];
      SortContactsSpec(filtered, sortField, ascending);
    }
  }
}
