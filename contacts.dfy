/**
 * The contact record, the helpers at the top of ContactList.js, and the
 * search filter that derives the visible list from the dataset and the
 * current search text.
 */
module Contacts {
  import opened JsString

  /** One record of the static dataset. */
  datatype Contact = Contact(id: nat, name: string, phone: string, email: string)

  /** The avatar service the list rows point at; the id is the image seed. */
  const AVATAR_PREFIX: string := "https://i.pravatar.cc/50?img="

  const DETAILS_TITLE_PREFIX: string := "Contact Details: "

  const PHONE_LABEL: string := "Phone: "

  const EMAIL_LABEL: string := "\nEmail: "

  /**
   * `getInitial`: a falsy (empty) name gives "?"; otherwise the first
   * character, upper-cased.
   */
  function GetInitial(name: string): (r: string)
    ensures |r| == 1 && !IsLowerAscii(r[0])
    ensures name == [] ==> r == "?"
    ensures name != [] ==> LowerChar(r[0]) == LowerChar(name[0])
  {
    CaseMapsAgree(if name == [] then '?' else name[0]);
    if name == [] then "?" else [UpperChar(name[0])]
  }

  /** Names that differ only in ASCII case get the same initial. */
  lemma GetInitialCaseInsensitive(a: string, b: string)
    requires Lower(a) == Lower(b)
    ensures GetInitial(a) == GetInitial(b)
  {
    if a != [] {
      assert LowerChar(a[0]) == LowerChar(b[0]);
      CaseMapsAgree(a[0]);
      CaseMapsAgree(b[0]);
    }
  }

  /**
   * The avatar image URI of a row: the service prefix followed by the id in
   * decimal, so that the id can be read back from the URI.
   */
  function AvatarUri(id: nat): (uri: string)
    ensures |uri| > |AVATAR_PREFIX| && uri[..|AVATAR_PREFIX|] == AVATAR_PREFIX
    ensures AllDigits(uri[|AVATAR_PREFIX|..]) && DecimalValue(uri[|AVATAR_PREFIX|..]) == id
    ensures |uri| > |AVATAR_PREFIX| + 1 ==> uri[|AVATAR_PREFIX|] != '0'
  {
    DecimalRoundTrip(id);
    var uri := AVATAR_PREFIX + DecimalString(id);
    assert uri[|AVATAR_PREFIX|..] == DecimalString(id);
    uri
  }

  /** Distinct ids give distinct avatars. */
  lemma AvatarUriInjective(a: nat, b: nat)
    requires AvatarUri(a) == AvatarUri(b)
    ensures a == b
  {
  }

  /** The title of the details alert a tapped row raises: the prefix, then the name. */
  function DetailsTitle(c: Contact): (title: string)
    ensures |title| == |DETAILS_TITLE_PREFIX| + |c.name|
    ensures title[..|DETAILS_TITLE_PREFIX|] == DETAILS_TITLE_PREFIX
    ensures title[|DETAILS_TITLE_PREFIX|..] == c.name
  {
    DETAILS_TITLE_PREFIX + c.name
  }

  /** The message of the details alert: a phone line, a newline, an email line. */
  function DetailsMessage(c: Contact): (message: string)
    ensures |message| == |PHONE_LABEL| + |c.phone| + |EMAIL_LABEL| + |c.email|
    ensures message[..|PHONE_LABEL|] == PHONE_LABEL
    ensures message[|PHONE_LABEL|..|PHONE_LABEL| + |c.phone|] == c.phone
    ensures message[|PHONE_LABEL| + |c.phone|..|PHONE_LABEL| + |c.phone| + |EMAIL_LABEL|] == EMAIL_LABEL
    ensures message[|PHONE_LABEL| + |c.phone| + |EMAIL_LABEL|..] == c.email
  {
    PHONE_LABEL + c.phone + EMAIL_LABEL + c.email
  }

  /**
   * The alert texts determine the name, phone and email they were built
   * from, as long as the phones hold no line break.
   */
  lemma DetailsDetermineContact(a: Contact, b: Contact)
    requires '\n' !in a.phone && '\n' !in b.phone
    requires DetailsTitle(a) == DetailsTitle(b) && DetailsMessage(a) == DetailsMessage(b)
    ensures a.name == b.name && a.phone == b.phone && a.email == b.email
  {
    if |a.phone| < |b.phone| {
      MessageLayout(a, 0);
      MessageLayout(b, |a.phone|);
      assert false;
    } else if |b.phone| < |a.phone| {
      MessageLayout(b, 0);
      MessageLayout(a, |b.phone|);
      assert false;
    }
  }

  /** Where the phone and the line break sit in the details message. */
  lemma MessageLayout(c: Contact, i: int)
    ensures DetailsMessage(c)[|PHONE_LABEL| + |c.phone|] == '\n'
    ensures 0 <= i < |c.phone| ==> DetailsMessage(c)[|PHONE_LABEL| + i] == c.phone[i]
  {
  }

  /** The filter predicate: the lowered name includes the lowered search text. */
  predicate Matches(c: Contact, searchText: string)
    ensures searchText == [] ==> Matches(c, searchText)
    ensures Matches(c, searchText) ==> |searchText| <= |c.name|
  {
    Includes(Lower(c.name), Lower(searchText))
  }

  /** `contacts.filter(...)`: the matching records, in dataset order. */
  function Filter(contacts: seq<Contact>, searchText: string): (r: seq<Contact>)
    ensures |r| <= |contacts|
    ensures forall k :: 0 <= k < |r| ==> Matches(r[k], searchText)
  {
    if contacts == [] then []
    else if Matches(contacts[0], searchText) then [contacts[0]] + Filter(contacts[1..], searchText)
    else Filter(contacts[1..], searchText)
  }

  /** `a` can be obtained from `b` by deleting elements, keeping the order of the rest. */
  predicate IsSubsequence<T(==)>(a: seq<T>, b: seq<T>)
    decreases |b|
  {
    a == [] || (b != [] && ((a[0] == b[0] && IsSubsequence(a[1..], b[1..])) || IsSubsequence(a, b[1..])))
  }

  /** Filtering concatenated datasets filters each part. */
  lemma {:induction false} FilterAppend(a: seq<Contact>, b: seq<Contact>, searchText: string)
    ensures Filter(a + b, searchText) == Filter(a, searchText) + Filter(b, searchText)
    decreases |a|
  {
    if a == [] {
      assert a + b == b;
    } else {
      assert (a + b)[0] == a[0];
      assert (a + b)[1..] == a[1..] + b;
      FilterAppend(a[1..], b, searchText);
      if Matches(a[0], searchText) {
        calc {
          Filter(a + b, searchText);
          [a[0]] + Filter(a[1..] + b, searchText);
          [a[0]] + (Filter(a[1..], searchText) + Filter(b, searchText));
          ([a[0]] + Filter(a[1..], searchText)) + Filter(b, searchText);
        }
      } else {
        assert Filter(a + b, searchText) == Filter(a[1..] + b, searchText);
      }
    }
  }

  /** The filtered list keeps dataset order and neither duplicates nor reorders records. */
  lemma {:induction false} FilterIsSubsequence(contacts: seq<Contact>, searchText: string)
    ensures IsSubsequence(Filter(contacts, searchText), contacts)
    decreases |contacts|
  {
    if contacts != [] {
      FilterIsSubsequence(contacts[1..], searchText);
    }
  }

  /** A record is listed exactly when it is in the dataset and matches. */
  lemma {:induction false} FilterMembership(contacts: seq<Contact>, searchText: string, c: Contact)
    ensures c in Filter(contacts, searchText) <==> c in contacts && Matches(c, searchText)
    decreases |contacts|
  {
    if contacts != [] {
      FilterMembership(contacts[1..], searchText, c);
      assert c in contacts <==> c == contacts[0] || c in contacts[1..];
    }
  }

  /**
   * Each matching record is listed as often as it occurs in the dataset, and
   * each non-matching record not at all.
   */
  lemma {:induction false} FilterMultiplicity(contacts: seq<Contact>, searchText: string, c: Contact)
    ensures multiset(Filter(contacts, searchText))[c] ==
            if Matches(c, searchText) then multiset(contacts)[c] else 0
    decreases |contacts|
  {
    if contacts != [] {
      FilterMultiplicity(contacts[1..], searchText, c);
      assert contacts == [contacts[0]] + contacts[1..];
      assert multiset(contacts) == multiset([contacts[0]]) + multiset(contacts[1..]);
    }
  }

  /** A filter that every record passes gives back the dataset unchanged. */
  lemma {:induction false} FilterAllMatch(contacts: seq<Contact>, searchText: string)
    requires forall k :: 0 <= k < |contacts| ==> Matches(contacts[k], searchText)
    ensures Filter(contacts, searchText) == contacts
    decreases |contacts|
  {
    if contacts != [] {
      FilterAllMatch(contacts[1..], searchText);
    }
  }

  /** An empty search text matches every name, so the whole dataset is listed, in order. */
  lemma FilterEmptySearch(contacts: seq<Contact>)
    ensures Filter(contacts, "") == contacts
  {
    FilterAllMatch(contacts, "");
  }

  /** Search texts that lower to the same string list the same records. */
  lemma {:induction false} FilterCaseInsensitive(contacts: seq<Contact>, a: string, b: string)
    requires Lower(a) == Lower(b)
    ensures Filter(contacts, a) == Filter(contacts, b)
    decreases |contacts|
  {
    if contacts != [] {
      FilterCaseInsensitive(contacts[1..], a, b);
    }
  }

  /**
   * A search text whose lowered form includes that of another lists a
   * subsequence of what the other lists.
   */
  lemma {:induction false} FilterNarrows(contacts: seq<Contact>, wide: string, narrow: string)
    requires Includes(Lower(narrow), Lower(wide))
    ensures IsSubsequence(Filter(contacts, narrow), Filter(contacts, wide))
    decreases |contacts|
  {
    if contacts != [] {
      var c := contacts[0];
      FilterNarrows(contacts[1..], wide, narrow);
      if Matches(c, narrow) {
        IncludesTransitive(Lower(c.name), Lower(narrow), Lower(wide));
      } else if Matches(c, wide) {
        var w := Filter(contacts, wide);
        assert w[1..] == Filter(contacts[1..], wide);
      }
    }
  }

  /** Typing one more character can only narrow the list. */
  lemma TypingNarrows(contacts: seq<Contact>, searchText: string, ch: char)
    ensures IsSubsequence(Filter(contacts, searchText + [ch]), Filter(contacts, searchText))
  {
    LowerAppend(searchText, [ch]);
    IncludesPrefix(Lower(searchText), Lower([ch]));
    FilterNarrows(contacts, searchText, searchText + [ch]);
  }

  /** No two records share an id (the list key). */
  predicate UniqueIds(contacts: seq<Contact>)
  {
    forall i, j :: 0 <= i < j < |contacts| ==> contacts[i].id != contacts[j].id
  }

  /** Filtering keeps the list keys unique. */
  lemma {:induction false} FilterKeepsUniqueIds(contacts: seq<Contact>, searchText: string)
    requires UniqueIds(contacts)
    ensures UniqueIds(Filter(contacts, searchText))
    decreases |contacts|
  {
    if contacts != [] {
      var c := contacts[0];
      var rest := Filter(contacts[1..], searchText);
      FilterKeepsUniqueIds(contacts[1..], searchText);
      if Matches(c, searchText) {
        var r := Filter(contacts, searchText);
        forall j | 1 <= j < |r|
          ensures r[0].id != r[j].id
        {
          FilterMembership(contacts[1..], searchText, r[j]);
          var k :| 0 <= k < |contacts[1..]| && contacts[1..][k] == r[j];
          assert contacts[k + 1] == r[j];
        }
      }
    }
  }
}
