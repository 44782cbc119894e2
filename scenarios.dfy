/**
 * Worked examples of the filter on a two-record dataset, one record named
 * "Alice Smith" and one "Bob Jones": a name prefix, the same prefix typed in
 * capitals, a fragment of Bob's phone number, and a text nothing matches.
 * The records are parameters fixed by their fields, so that the facts hold
 * whatever the remaining fields are.
 */
module Scenarios {
  import opened JsString
  import opened Contacts
  import opened ContactListView

  /** A record whose name lacks the lowered first character of the search text, in both cases, is filtered out. */
  lemma NoMatchWithoutFirstChar(c: Contact, searchText: string)
    requires searchText != []
    requires LowerChar(searchText[0]) !in c.name && UpperChar(LowerChar(searchText[0])) !in c.name
    ensures !Matches(c, searchText)
  {
    LowerLacks(c.name, LowerChar(searchText[0]));
    NotIncludedWithoutChar(Lower(c.name), Lower(searchText), 0);
  }

  /** Of two records, only the first matches. */
  lemma FilterPairFirst(a: Contact, b: Contact, q: string)
    requires Matches(a, q) && !Matches(b, q)
    ensures Filter([a, b], q) == [a]
  {
    assert [a, b][1..] == [b];
    assert [b][1..] == [];
  }

  /** Of two records, neither matches. */
  lemma FilterPairNone(a: Contact, b: Contact, q: string)
    requires !Matches(a, q) && !Matches(b, q)
    ensures Filter([a, b], q) == []
  {
    assert [a, b][1..] == [b];
    assert [b][1..] == [];
  }

  /** A search text that agrees up to case with the start of a name matches it. */
  lemma MatchesByPrefix(c: Contact, searchText: string)
    requires |searchText| <= |c.name| && Lower(c.name[..|searchText|]) == Lower(searchText)
    ensures Matches(c, searchText)
  {
    LowerPrefix(c.name, |searchText|);
    assert OccursAt(Lower(c.name), Lower(searchText), 0);
  }

  /** "ali" and "ALI" agree up to case with the first three letters of "Alice Smith". */
  lemma AliceMatchesAli(alice: Contact, q: string)
    requires alice.name == "Alice Smith"
    requires q == "ali" || q == "ALI"
    ensures Matches(alice, q)
  {
    var first := alice.name[..3];
    assert first == "Ali";
    if q == "ali" {
      SameLower(first, "ali");
    } else {
      SameLower(first, "ALI");
    }
    MatchesByPrefix(alice, q);
  }

  /** "ali" lists Alice only, and so does "ALI". */
  lemma SearchByNamePrefix(alice: Contact, bob: Contact, q: string)
    requires alice.name == "Alice Smith" && bob.name == "Bob Jones"
    requires q == "ali" || q == "ALI"
    ensures Filter([alice, bob], q) == [alice]
  {
    AliceMatchesAli(alice, q);
    NoMatchWithoutFirstChar(bob, q);
    FilterPairFirst(alice, bob, q);
  }

  /** A fragment of Bob's phone number lists nothing: only names are searched. */
  lemma PhoneFragmentListsNothing(alice: Contact, bob: Contact, q: string)
    requires alice.name == "Alice Smith" && bob.name == "Bob Jones" && bob.phone == "555-9999"
    requires q == "555-99"
    ensures Includes(bob.phone, q)
    ensures Filter([alice, bob], q) == []
  {
    IncludesPrefix(q, "99");
    assert q + "99" == bob.phone;
    NoMatchWithoutFirstChar(alice, q);
    NoMatchWithoutFirstChar(bob, q);
    FilterPairNone(alice, bob, q);
  }

  /** "zzz" lists nothing, and the count reads "**0** results found". */
  lemma NothingMatches(alice: Contact, bob: Contact, q: string)
    requires alice.name == "Alice Smith" && bob.name == "Bob Jones"
    requires q == "zzz"
    ensures Filter([alice, bob], q) == []
    ensures Render([alice, bob], q).countText == Some("**0** results found")
    ensures Render([alice, bob], q).rows == []
  {
    NoMatchWithoutFirstChar(alice, q);
    NoMatchWithoutFirstChar(bob, q);
    FilterPairNone(alice, bob, q);
    NoResultsShown([alice, bob], q);
  }
}
