/**
 * The ContactList component's own state: the dataset it was given and the
 * one piece of mutable state, the search text, with its two updates (typing
 * into the input and the clear button).
 */
module ContactListState {
  import opened Contacts
  import opened ContactListView

  class ContactList {
    /** The dataset, read once and never changed. */
    const contacts: seq<Contact>
    /** The text typed into the search input. */
    var searchText: string

    /** The records the list currently shows. */
    function FilteredContacts(): (r: seq<Contact>)
      reads this
      ensures IsSubsequence(r, contacts)
      ensures forall c :: c in r <==> c in contacts && Matches(c, searchText)
    {
      var r := Filter(contacts, searchText);
      FilterIsSubsequence(contacts, searchText);
      forall c
        ensures c in r <==> c in contacts && Matches(c, searchText)
      {
        FilterMembership(contacts, searchText, c);
      }
      r
    }

    /** What the component shows in its current state. */
    function View(): (s: Screen)
      reads this
      ensures s.inputValue == searchText
      ensures s.clearButtonShown <==> |searchText| > 0
      ensures s.countText == if |searchText| > 0 then Some(CountText(|FilteredContacts()|)) else None
      ensures s.rows == RenderRows(FilteredContacts())
    {
      Render(contacts, searchText)
    }

    /** Mounting: the search text starts empty, so every record is listed. */
    constructor (contacts: seq<Contact>)
      ensures this.contacts == contacts && searchText == ""
      ensures FilteredContacts() == contacts
      ensures !View().clearButtonShown && View().countText == None
    {
      this.contacts := contacts;
      searchText := "";
      new;
      FilterEmptySearch(contacts);
    }

    /** `onChangeText`: the new text replaces the old one, whatever it was. */
    method SetSearchText(text: string)
      modifies this
      ensures searchText == text
      ensures FilteredContacts() == Filter(contacts, text)
      ensures View().clearButtonShown <==> |text| > 0
    {
      searchText := text;
    }

    /** `clearSearch`: the text becomes empty and the whole dataset is listed again. */
    method ClearSearch()
      modifies this
      ensures searchText == ""
      ensures FilteredContacts() == contacts
      ensures View() == Screen("", false, None, RenderRows(contacts))
    {
      searchText := "";
      FilterEmptySearch(contacts);
      RenderEmptySearch(contacts);
    }
  }

  /**
   * Clearing twice leaves the state clearing once does, and typing a text
   * after any history gives the state of typing it once.
   */
  method ClearAndRetype(list: ContactList, text: string) returns (clearedOnce: Screen, clearedTwice: Screen)
    modifies list
    ensures clearedOnce == clearedTwice == Screen("", false, None, RenderRows(list.contacts))
    ensures list.searchText == text
    ensures list.View() == Render(list.contacts, text)
  {
    list.ClearSearch();
    clearedOnce := list.View();
    list.ClearSearch();
    clearedTwice := list.View();
    list.SetSearchText(text);
    list.SetSearchText(text);
  }
}
