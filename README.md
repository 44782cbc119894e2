# ContactList search and filter, modelled in Dafny

ContactList is a React Native screen that lists contacts from a static
dataset. The user types into a search box to filter the list. This project
models the component's logic:

- **Search state.** One string, `searchText`. It starts empty. Typing
  replaces it (`onChangeText`), and the clear button resets it (`clearSearch`).
- **Filter.** `filteredContacts` keeps the records whose lower-cased name
  contains the lower-cased search text as a substring. The records stay in
  dataset order.
- **What the screen shows.** The input shows the search text. The clear
  button and the "**n** results found" line appear only when the text is
  non-empty. There is one row per listed record: the row is keyed by the
  record's id, and its avatar URI is built from that id.
- **Helpers.** `getInitial`, and the title and message strings of the
  details alert that a tapped row raises.

Modules:

- `JsString` (`js_string.dfy`): the JavaScript string built-ins the code
  uses, restricted to ASCII.
  - `toLowerCase` and `toUpperCase` are per-character maps.
  - `includes` is an occurrence predicate (`Includes`). Beside it sits the
    left-to-right scan the built-in performs (`IncludesScan`), proved to
    agree with it.
  - The decimal text a template literal gives a number (`DecimalString`),
    with its reading back (`DecimalValue`).
- `Contacts` (`contacts.dfy`): the `Contact` record, `getInitial`, the
  avatar URI, the alert texts, the filter predicate `Matches`, the filter
  `Filter`, and the lemmas about them.
- `ContactListView` (`contact_list_view.dfy`): `Render` maps a dataset and
  a search text to a `Screen`. A `Screen` holds the input value, whether the
  clear button is shown, the optional count text and the rows.
- `ContactListState` (`contact_list_state.dfy`): the component as a class.
  The dataset is a `const`. `searchText` is a mutable field, changed by
  `SetSearchText` and `ClearSearch`.
- `Scenarios` (`scenarios.dfy`): worked examples on a dataset with two
  records, "Alice Smith" and "Bob Jones".

Three facts about the code's behaviour are easy to expect otherwise:

- Only names are searched. A record's phone number and email never take
  part in the match (ContactList.js:61-63). `Scenarios.PhoneFragmentListsNothing`
  shows the result: "555-99" lists nothing, although it is part of Bob's
  phone number.
- There is no selection state. Tapping a row only raises an alert with the
  record's details (ContactList.js:20-24, 30), and nothing is remembered.
- `clearSearch` only sets the text to `''` (ContactList.js:56-58). It does
  not dismiss the keyboard or touch anything else.

`Contact.id` is a `nat`. The avatar URL (ContactList.js:37) takes a numeric
image seed, written with a template literal. For integers below 2^53 that
text is the number's decimal digits, which is what the model writes (see
"## Left out" for larger ids). The dataset file itself is not part of this
model.

## Model

| member | source | states |
|---|---|---|
| `JsString.LowerChar` | ContactList.js:62 | `toLowerCase` on one character: `A`-`Z` go to `a`-`z` (code point + 32), every other character is unchanged, and no result is an upper-case letter |
| `JsString.UpperChar` | ContactList.js:17 | `toUpperCase` on one character: `a`-`z` go to `A`-`Z`, every other character is unchanged, and no result is a lower-case letter |
| `JsString.Lower` | ContactList.js:62 | `toLowerCase` keeps the length and lowers each character in place |
| `JsString.Includes` | ContactList.js:62 | `includes`: the needle occurs as a contiguous slice at some index; the empty needle is included in every string, and an included needle is no longer than the string |
| `JsString.IncludesScan` | ContactList.js:62 | the left-to-right search `includes` performs is true exactly when the needle occurs as a contiguous slice at some index |
| `JsString.IncludesTransitive` | ContactList.js:62 | if `a` includes `b` and `b` includes `c`, then `a` includes `c` |
| `JsString.DecimalString` | ContactList.js:37 | the decimal text of a number is non-empty and all digits; it starts with '0' only when it is exactly the one digit of 0 |
| `JsString.DecimalRoundTrip` | ContactList.js:37 | reading the decimal text of `n` back gives `n` |
| `JsString.DecimalStringInjective` | ContactList.js:37 | distinct numbers have distinct decimal texts |
| `Contacts.GetInitial` | ContactList.js:16-18 | an empty name gives "?"; otherwise the result is one character, never a lower-case letter, and the same letter as the name's first character up to case |
| `Contacts.GetInitialCaseInsensitive` | ContactList.js:16-18 | names that lower to the same string get the same initial |
| `Contacts.AvatarUri` | ContactList.js:37 | the URI is the avatar service prefix followed by decimal digits that read back as the record's id, with no leading zero |
| `Contacts.AvatarUriInjective` | ContactList.js:37 | records with different ids get different avatar URIs |
| `Contacts.DetailsTitle` | ContactList.js:21 | the alert title is "Contact Details: " followed by the whole name |
| `Contacts.DetailsMessage` | ContactList.js:22 | the alert message is "Phone: ", the phone, a line break, "Email: ", the email, in that layout |
| `Contacts.DetailsDetermineContact` | ContactList.js:20-22 | when the phones hold no line break, equal alert texts mean equal name, phone and email |
| `Contacts.Matches` | ContactList.js:61-62 | the filter's predicate: the lowered name includes the lowered search text; the empty text matches every record, and a text longer than the name matches none |
| `Contacts.Filter` | ContactList.js:61-63 | the filtered list is no longer than the dataset, and every listed record matches the search text |
| `Contacts.FilterAppend` | ContactList.js:61-63 | filtering a concatenation is the concatenation of the filtered parts |
| `Contacts.FilterIsSubsequence` | ContactList.js:61-63 | the filtered list is an order-preserving subsequence of the dataset |
| `Contacts.FilterMembership` | ContactList.js:61-63 | a record is listed if and only if it is in the dataset and its lowered name includes the lowered search text |
| `Contacts.FilterMultiplicity` | ContactList.js:61-63 | a matching record is listed exactly as often as it occurs in the dataset; a non-matching one never is |
| `Contacts.FilterAllMatch` | ContactList.js:61-63 | when every record matches, the filter gives back the whole dataset in order |
| `Contacts.FilterEmptySearch` | ContactList.js:53-63 | with the empty search text, including the initial state, the filtered list is the whole dataset |
| `Contacts.FilterCaseInsensitive` | ContactList.js:60-62 | two search texts with the same lower-case form list the same records |
| `Contacts.FilterNarrows` | ContactList.js:61-63 | if the lowered text `narrow` includes the lowered text `wide`, what `narrow` lists is a subsequence of what `wide` lists |
| `Contacts.TypingNarrows` | ContactList.js:61-63 | appending a character to the search text lists a subsequence of what was listed before |
| `Contacts.FilterKeepsUniqueIds` | ContactList.js:94 | when the dataset's ids are unique, the filtered list's ids are unique |
| `ContactListView.RenderContact` | ContactList.js:27-48 | a row is keyed by the record's id, its avatar is `AvatarUri` of that id, and it shows the name, "Phone: " with the phone, and "Email: " with the email |
| `ContactListView.RenderRows` | ContactList.js:91-93 | the list has one row per record, the row at each position rendering the record at that position |
| `ContactListView.CountText` | ContactList.js:88 | the count text is "**", then decimal digits that read back as the count with no leading zero, then "** results found" |
| `ContactListView.CountTextInjective` | ContactList.js:88 | different counts give different count texts |
| `ContactListView.Render` | ContactList.js:72-88 | the input shows the search text; the clear button and the count are shown if and only if the text is non-empty, hence always together |
| `ContactListView.CountIsRowCount` | ContactList.js:86-92 | when the count is shown, it is the number of rows, and that number is the filtered list's length |
| `ContactListView.NoResultsShown` | ContactList.js:86-92 | when nothing matches a non-empty text, the list is empty and the count reads "**0** results found" |
| `ContactListView.RowsAreMatchingRecords` | ContactList.js:92-93 | every row renders a matching dataset record, and every matching record has a row |
| `ContactListView.RowsFollowDatasetOrder` | ContactList.js:91-93 | the rows are the rows of the filtered records in filter order, hence an order-preserving subsequence of the rows of the whole dataset |
| `ContactListView.RowKeysUnique` | ContactList.js:94 | when the dataset's ids are unique, the list keys are unique |
| `ContactListView.RenderEmptySearch` | ContactList.js:53-92 | with an empty search text there is no clear button and no count, and every record has a row, in order |
| `ContactListState.ContactList.FilteredContacts` | ContactList.js:61-63 | the component's current list is a subsequence of its dataset and holds exactly its matching records |
| `ContactListState.ContactList.View` | ContactList.js:65-97 | the current screen: the input shows the text, the clear button shows if and only if the text is non-empty, the count is the length of the current list exactly then, and the rows render the current list |
| `ContactListState.ContactList.constructor` | ContactList.js:53 | the search text starts empty, so the list is the whole dataset and neither the clear button nor the count is shown |
| `ContactListState.ContactList.SetSearchText` | ContactList.js:73 | the new text replaces the old one whatever it was; the list is the filter applied to the new text |
| `ContactListState.ContactList.ClearSearch` | ContactList.js:56-58 | the text becomes empty; the list is the whole dataset; the clear button and the count are hidden |
| `ContactListState.ClearAndRetype` | ContactList.js:56-73 | the screens after one clear and after a second clear are equal, both the empty-text screen; setting a text twice leaves the text and the screen of that text |
| `Scenarios.SearchByNamePrefix` | ContactList.js:61-63 | "ali" and "ALI" both list only "Alice Smith" |
| `Scenarios.PhoneFragmentListsNothing` | ContactList.js:61-63 | "555-99" occurs in Bob's phone number but lists nothing, because only names are searched |
| `Scenarios.NothingMatches` | ContactList.js:61-88 | "zzz" lists nothing, and the count reads "**0** results found" |

## Left out

- App.js: safe-area, status-bar and background wiring only (App.js:10-29).
- Styles and JSX layout (ContactList.js:65-97, 102-204): presentation only. The rows keep their text content and drop their styling.
- The `Alert.alert` call in `showDetailsAlert` (ContactList.js:23): a call into the platform. Only the title and message strings are modelled.
- Loading `./data/contacts.json` (ContactList.js:13): file input. The dataset is a constructor argument. Unique ids are a precondition only where a lemma needs them.
- React's render scheduling, `useState` batching and `FlatList` virtualisation: framework behaviour. The list is recomputed from the current state every time it is read.
- JsString.LowerChar: models ASCII only. JavaScript's `toLowerCase` applies Unicode's default case mapping, which also lowers non-ASCII letters ("É" to "é"): "Émile" is found by "é" in JavaScript but not in the model. The full mapping can also change a string's length ("İ" lowers to two code units).
- JsString.UpperChar: models ASCII only. JavaScript's `toUpperCase` also raises non-ASCII letters and can lengthen the text ("ß" becomes "SS").
- Contacts.GetInitial: takes the name's first `char`. It does not model `charAt(0)` returning half of a UTF-16 surrogate pair, nor a name that is not a string. A missing or `null` name is falsy and gives "?", as the empty name does. A truthy non-string such as `42` reaches `name.charAt` and throws a TypeError (ContactList.js:17).
- Contacts.AvatarUri: assumes ids below 2^53, where a JavaScript number holds the integer exactly. An id read from JSON is a double. From 2^53 up, `${item.id}` writes the shortest digits that read back as the same double, padded with zeros: 2^60 gives "img=1152921504606847000", while the model writes "img=1152921504606846976". From 10^21 up it writes exponent form: 10^21 gives "img=1e+21". The count text is not affected, because an array's length is below 2^32.
- Record ids: `id` is a natural number. A dataset with string ids would put the string itself in the avatar URI and the list key.
- ContactListView.Render: shows the screen without the text of ContactList.js:84-85. Those two `// ...` lines are not comments: in JSX they are a bare text child of `<View>`, and React Native refuses to render a text string outside a `<Text>` element. So the screen as written does not render on native platforms. The model treats the lines as comments and describes the screen the rest of the code lays out.
- Phone and email matching, selection state and a detail view: the code has none of these (see above).
