/**
 * What the ContactList component shows for a dataset and a search text:
 * the input's value, whether the clear button and the result count appear,
 * and one row per listed record.
 */
module ContactListView {
  import opened JsString
  import opened Contacts

  datatype Option<T> = None | Some(value: T)

  /** One rendered row: its list key, avatar, and the three text lines. */
  datatype Row = Row(key: nat, avatarUri: string, nameText: string, phoneText: string, emailText: string)

  /** The component's output, minus layout and styling. */
  datatype Screen = Screen(inputValue: string, clearButtonShown: bool, countText: Option<string>, rows: seq<Row>)

  const COUNT_PREFIX: string := "**"

  const COUNT_SUFFIX: string := "** results found"

  /**
   * `renderContact` together with the list's `keyExtractor`. The row's labels
   * are its own: the alert's email label starts with a line break, the row's
   * does not.
   */
  function RenderContact(c: Contact): (row: Row)
    ensures row.key == c.id && row.avatarUri == AvatarUri(c.id)
    ensures row.nameText == c.name
    ensures row.phoneText == "Phone: " + c.phone && row.emailText == "Email: " + c.email
  {
    Row(c.id, AvatarUri(c.id), c.name, "Phone: " + c.phone, "Email: " + c.email)
  }

  /** The text of the result count: the number in decimal between the markers. */
  function CountText(n: nat): (text: string)
    ensures |text| > |COUNT_PREFIX| + |COUNT_SUFFIX|
    ensures text[..|COUNT_PREFIX|] == COUNT_PREFIX
    ensures text[|text| - |COUNT_SUFFIX|..] == COUNT_SUFFIX
    ensures AllDigits(text[|COUNT_PREFIX|..|text| - |COUNT_SUFFIX|])
    ensures DecimalValue(text[|COUNT_PREFIX|..|text| - |COUNT_SUFFIX|]) == n
    ensures |text| > |COUNT_PREFIX| + |COUNT_SUFFIX| + 1 ==> text[|COUNT_PREFIX|] != '0'
  {
    var digits := DecimalString(n);
    DecimalRoundTrip(n);
    var text := COUNT_PREFIX + digits + COUNT_SUFFIX;
    assert text[|COUNT_PREFIX|..|text| - |COUNT_SUFFIX|] == digits;
    text
  }

  /** Distinct counts read differently. */
  lemma CountTextInjective(m: nat, n: nat)
    requires CountText(m) == CountText(n)
    ensures m == n
  {
  }

  /** The rows of a list of records, one per record, in order. */
  function RenderRows(contacts: seq<Contact>): (rows: seq<Row>)
    ensures |rows| == |contacts|
    ensures forall k :: 0 <= k < |rows| ==> rows[k] == RenderContact(contacts[k])
  {
    seq(|contacts|, k requires 0 <= k < |contacts| => RenderContact(contacts[k]))
  }

  /**
   * The component's render: the input shows the search text, the clear button
   * and the count are shown only when that text is non-empty, and the list
   * holds the filtered records.
   */
  function Render(contacts: seq<Contact>, searchText: string): (s: Screen)
    ensures s.inputValue == searchText
    ensures s.clearButtonShown <==> |searchText| > 0
    ensures s.countText.Some? <==> |searchText| > 0
  {
    var shown := |searchText| > 0;
    var listed := Filter(contacts, searchText);
    Screen(searchText, shown, if shown then Some(CountText(|listed|)) else None, RenderRows(listed))
  }

  /** The number the count displays is the number of rows in the list. */
  lemma CountIsRowCount(contacts: seq<Contact>, searchText: string)
    requires |searchText| > 0
    ensures Render(contacts, searchText).countText == Some(CountText(|Render(contacts, searchText).rows|))
    ensures |Render(contacts, searchText).rows| == |Filter(contacts, searchText)|
  {
  }

  /** When nothing matches a non-empty search text, the list is empty and the count reads zero. */
  lemma NoResultsShown(contacts: seq<Contact>, searchText: string)
    requires |searchText| > 0 && Filter(contacts, searchText) == []
    ensures Render(contacts, searchText).rows == []
    ensures Render(contacts, searchText).countText == Some("**0** results found")
  {
    assert Render(contacts, searchText).countText == Some(CountText(0));
    assert DecimalString(0) == "0";
    assert COUNT_PREFIX + "0" + COUNT_SUFFIX == "**0** results found";
  }

  /**
   * Each row renders a record of the dataset that matches the search text,
   * and each matching record has a row.
   */
  lemma RowsAreMatchingRecords(contacts: seq<Contact>, searchText: string)
    ensures forall row :: row in Render(contacts, searchText).rows ==>
              exists c :: c in contacts && Matches(c, searchText) && row == RenderContact(c)
    ensures forall c :: c in contacts && Matches(c, searchText) ==>
              RenderContact(c) in Render(contacts, searchText).rows
  {
    var listed := Filter(contacts, searchText);
    var rows := Render(contacts, searchText).rows;
    forall row | row in rows
      ensures exists c :: c in contacts && Matches(c, searchText) && row == RenderContact(c)
    {
      var k :| 0 <= k < |rows| && rows[k] == row;
      FilterMembership(contacts, searchText, listed[k]);
    }
    forall c | c in contacts && Matches(c, searchText)
      ensures RenderContact(c) in rows
    {
      FilterMembership(contacts, searchText, c);
      var k :| 0 <= k < |listed| && listed[k] == c;
      assert rows[k] == RenderContact(c);
    }
  }

  /** With unique ids in the dataset, the list keys are unique. */
  lemma RowKeysUnique(contacts: seq<Contact>, searchText: string)
    requires UniqueIds(contacts)
    ensures forall i, j :: 0 <= i < j < |Render(contacts, searchText).rows| ==>
              Render(contacts, searchText).rows[i].key != Render(contacts, searchText).rows[j].key
  {
    FilterKeepsUniqueIds(contacts, searchText);
  }

  /**
   * The list shows the filtered records in filter order, so its rows are the
   * rows of the whole dataset with the non-matching ones left out.
   */
  lemma {:induction false} RowsFollowDatasetOrder(contacts: seq<Contact>, searchText: string)
    ensures Render(contacts, searchText).rows == RenderRows(Filter(contacts, searchText))
    ensures IsSubsequence(Render(contacts, searchText).rows, RenderRows(contacts))
    decreases |contacts|
  {
    if contacts != [] {
      RowsFollowDatasetOrder(contacts[1..], searchText);
      var all := RenderRows(contacts);
      assert all[0] == RenderContact(contacts[0]);
      assert all[1..] == RenderRows(contacts[1..]);
      if Matches(contacts[0], searchText) {
        var rows := RenderRows(Filter(contacts, searchText));
        assert rows[0] == all[0];
        assert rows[1..] == RenderRows(Filter(contacts[1..], searchText));
      }
    }
  }

  /** With an empty search text: no clear button, no count, and a row for every record. */
  lemma RenderEmptySearch(contacts: seq<Contact>)
    ensures Render(contacts, "") == Screen("", false, None, RenderRows(contacts))
  {
    FilterEmptySearch(contacts);
  }
}
