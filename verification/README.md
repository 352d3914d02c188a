# Contact store of a command-line contact book

The contact book keeps its contacts (`id`, `name`, `email`, `phone`, all
strings) as one JSON array in a single file. Every command loads the whole
array. Only `addContact` and `removeContact` write, and each write
attempt overwrites the whole file. `removeContact` writes only when the
filtered list is shorter. The commands:

- `getContactById` takes the first record whose `id` is strictly equal to
  the argument (`Array.prototype.find`);
- `removeContact` filters out every record with that id
  (`Array.prototype.filter`). When the filtered list has the same length, it
  reports that the contact does not exist and writes nothing. Otherwise it
  writes the filtered list;
- `addContact` appends one record built verbatim from its arguments and a
  freshly drawn UUID, then writes the list;
- `listContacts` applies no sequence operation and never writes. It tells
  "no data" (the read failed) apart from an empty list. `getContactById`
  never writes either.

`readContacts` and `writeContacts` catch and log their own errors.
`readContacts` then yields `undefined`. `getContactById`,
`removeContact` and `addContact` then throw at `.find`, `.filter` or
`.push`, before anything is written. `listContacts` throws its own
"No data to display." error.
`writeContacts` returns normally, so the command still reports success.
As a consequence, removal is not idempotent when the file cannot be
written: when the id is present, both calls report "deleted" and the id
stays in the file
(`RemoveTwice` states this case beside the idempotent one).

`contacts.dfy` holds one module, `Contacts`:

- `Find` and `Without` model the lookup and the filter as functions on
  `seq<Contact>`. The lemmas beside them prove the first-match rule,
  keeping exactly the other records in order, idempotence, dropping exactly
  one record when ids are unique, and id uniqueness under both mutations.
- The class `ContactStore` models the backing file. `contents` is
  `None` when reading or parsing fails; otherwise it holds the parsed list.
  `writable` says whether overwriting the file succeeds. It stays the same
  across commands. The ghost counter `writes` counts write attempts
  (calls of `writeContacts`, whether or not they succeed), so "nothing is
  written" is stated in its strongest form.
- Each command is a method on the store. Its postconditions give the
  outcome it reports and the new state of the file, in terms of `Find`,
  `Without` and `old(contents)`.

## Model

| member | source | states |
|---|---|---|
| `Contacts.Find` | contacts.js:75 | The lookup finds nothing exactly when no record carries the id. Any record it yields is in the list and has that id. |
| `Contacts.FindFirst` | contacts.js:75 | The lookup yields the first record carrying the id, whatever comes after it. |
| `Contacts.FindUnique` | contacts.js:75 | When ids are unique, looking up the id of any stored record yields that very record. |
| `Contacts.FindAppend` | contacts.js:126-134 | Appending a record leaves every earlier lookup result unchanged. A lookup of an id absent before yields the appended record when the ids match, and nothing otherwise. |
| `Contacts.Without` | contacts.js:100 | The filter keeps exactly the records whose id differs from the argument. It never lengthens the list. The length is unchanged exactly when no record carries the id. |
| `Contacts.WithoutConcat` | contacts.js:100 | Filtering distributes over concatenation, so kept records stay in their original relative order. |
| `Contacts.WithoutAbsent` | contacts.js:100-105 | Filtering out an id that no record carries returns the list unchanged. |
| `Contacts.WithoutRemovesId` | contacts.js:100-107 | After filtering, no record carries the id, and a lookup of it finds nothing. |
| `Contacts.WithoutIdempotent` | contacts.js:100-105 | Filtering twice by the same id gives the same list as filtering once. |
| `Contacts.WithoutUnique` | contacts.js:100 | Filtering preserves id uniqueness. |
| `Contacts.WithoutDropsOne` | contacts.js:100-107 | When ids are unique and the id is present, the filtered list is exactly one record shorter. |
| `Contacts.AppendUnique` | contacts.js:126-134 | Appending a record whose id is fresh preserves id uniqueness. |
| `Contacts.RemoveUndoesAdd` | contacts.js:100-134 | Removing the id of a freshly appended record restores the list as it was before the append. |
| `Contacts.ContactStore.ReadContacts` | contacts.js:20-27 | Loading yields the stored list, or `None` (the `undefined` of a swallowed read error). |
| `Contacts.ContactStore.WriteContacts` | contacts.js:33-40 | Counts one write attempt, whether or not it succeeds. The file then holds exactly the given list when it is writable. Otherwise the failure is swallowed and the old contents stay. |
| `Contacts.ContactStore.ListContacts` | contacts.js:46-65 | Reports no data exactly when the load failed, and an empty list exactly when the file holds `[]`. Otherwise it shows the whole non-empty list. |
| `Contacts.ContactStore.GetContactById` | contacts.js:72-90 | Fails exactly when the load failed. Reports "not exist" exactly when no record has the id. Otherwise yields the first record with the id, as the lookup `Find` does. |
| `Contacts.ContactStore.RemoveContact` | contacts.js:97-115 | A failed load yields a failure and no write. An absent id yields "not exist" and no write, and the list is unchanged. A present id yields "deleted" and one write attempt with the filtered list. If that write succeeds, the id is gone and the list is strictly shorter. With unique ids it is one record shorter and the ids stay unique. |
| `Contacts.ContactStore.AddContact` | contacts.js:124-144 | A failed load yields a failure and no write. Otherwise the command reports the record `{id, name, email, phone}` built verbatim and makes one write attempt with the old list and that record appended. When the write succeeds and the id was fresh, a lookup of the id yields the new record and unique ids stay unique. |
| `Contacts.RemoveTwice` | contacts.js:97-115 | A failed load makes both removals fail with no write. On a loaded writable file the second removal reports "not exist" and the list ends as the first removal left it. There is one write attempt if the id was present and none otherwise. On a loaded file that cannot be written, both calls report the same outcome and the list is unchanged. When the id was present that outcome is "deleted" and there are two failed write attempts; otherwise there are none. |
| `Contacts.AddThenRemove` | contacts.js:97-144 | Adding a contact with a fresh id and then removing that id leaves the list as it was. A failed load makes both fail with no write. A loaded writable file reports "added" and then "deleted" after two successful write attempts. A loaded file that cannot be written reports "added" and then "not exist", after one failed write attempt. |

## Left out

- File-system access and the fixed file path (contacts.js:5, 22, 36). The file is the store's `contents` field and a write is an assignment to it. A failed write is modelled as one that leaves the old contents in place. A write that truncates the file and then fails part-way is not modelled.
- `JSON.parse` and `JSON.stringify` (contacts.js:23, 35). A readable, well-formed file is taken to hold an array of contacts with string fields, and a written list reads back unchanged. Files that parse to something else (an object, `null`, records without an `id`) are not modelled.
- `randomUUID` (contacts.js:3, 127). It is a random source. Its result is the `newId` parameter of `AddContact`, and freshness is a hypothesis of the properties that need it.
- Console output, colour codes and `console.table` rendering (contacts.js:7-14, 55-61, 78-86, 103-110, 138-140). The methods return what would be shown as an outcome value instead.
- `async`/`await` and the logging in the `catch` blocks. Each command runs sequentially, and a caught exception becomes a failure outcome with no write.
- Arguments that are not strings (for example a missing `contactId`, which is `undefined` in JavaScript). Ids are strings compared with `==`.
- RemoveTwice: the file's writability is fixed for the store's whole life, so both removals' writes succeed or both fail. A first write that fails and a second that succeeds (or the reverse) is not modelled. In the source, each `fs.writeFile` fails or succeeds on its own (contacts.js:36-39).
- AddThenRemove: the file's writability is fixed for the store's whole life, so the add's write and the remove's write both succeed or both fail. If the add's write succeeded and the remove's write failed, the file would end with the new record while both commands report success. That mix is not modelled.
- Concurrent commands against the same file. Each method runs its load and write with nothing in between.
