/** A model of the contact store of a command-line contact book.

    The backing JSON file is the field `contents` of a `ContactStore`: `None`
    when reading it fails (missing file, unreadable file, invalid JSON), and
    otherwise the whole ordered list of contacts. Each exported operation
    loads that list. Listing shows it as it is and looking up takes the first
    match by id; neither writes. Removing filters the id out and attempts to
    overwrite the whole list only when the filtered list is shorter. Adding
    appends one record and attempts to overwrite the whole list whenever the
    load succeeded; a failed write attempt leaves the file as it was. The
    sequence operations are the functions `Find` and `Without`; the lemmas
    below state what they promise. */
module Contacts {

  datatype Option<T> = None | Some(value: T)

  /** One record of the contact list; every field is a free-form string. */
  datatype Contact = Contact(id: string, name: string, email: string, phone: string)

  /** Some record of `cs` carries the id `contactId`. */
  predicate HasId(cs: seq<Contact>, contactId: string)
  {
    exists i :: 0 <= i < |cs| && cs[i].id == contactId
  }

  /** No two records of `cs` share an id. */
  predicate UniqueIds(cs: seq<Contact>)
  {
    forall i, j :: 0 <= i < j < |cs| ==> cs[i].id != cs[j].id
  }

  /** The lookup of `getContactById` (`Array.prototype.find` with strict
      equality on `id`): scans the list from the front and yields the first
      record with that id, or nothing. */
  function Find(cs: seq<Contact>, contactId: string): (r: Option<Contact>)
    ensures r.None? <==> !HasId(cs, contactId)
    ensures r.Some? ==> r.value in cs && r.value.id == contactId
  {
    if cs == [] then None
    else if cs[0].id == contactId then Some(cs[0])
    else
      var rest := Find(cs[1..], contactId);
      assert HasId(cs, contactId) ==> HasId(cs[1..], contactId) by {
        if HasId(cs, contactId) {
          var i :| 0 <= i < |cs| && cs[i].id == contactId;
          assert cs[1..][i - 1].id == contactId;
        }
      }
      assert HasId(cs[1..], contactId) ==> HasId(cs, contactId) by {
        if HasId(cs[1..], contactId) {
          var i :| 0 <= i < |cs[1..]| && cs[1..][i].id == contactId;
          assert cs[i + 1].id == contactId;
        }
      }
      rest
  }

  /** The filter of `removeContact` (`Array.prototype.filter` keeping the
      records whose `id` is strictly unequal to the argument): keeps exactly
      the records whose id differs, in their original order. */
  function Without(cs: seq<Contact>, contactId: string): (r: seq<Contact>)
    ensures forall c :: c in r <==> c in cs && c.id != contactId
    ensures |r| <= |cs|
    ensures |r| == |cs| <==> !HasId(cs, contactId)
  {
    if cs == [] then []
    else
      var rest := Without(cs[1..], contactId);
      assert HasId(cs, contactId) <==> cs[0].id == contactId || HasId(cs[1..], contactId) by {
        if HasId(cs, contactId) && cs[0].id != contactId {
          var i :| 0 <= i < |cs| && cs[i].id == contactId;
          assert cs[1..][i - 1].id == contactId;
        }
        if HasId(cs[1..], contactId) {
          var i :| 0 <= i < |cs[1..]| && cs[1..][i].id == contactId;
          assert cs[i + 1].id == contactId;
        }
      }
      if cs[0].id == contactId then rest else [cs[0]] + rest
  }

  /** The lookup yields the FIRST record carrying the id, whatever follows it. */
  lemma {:induction false} FindFirst(cs: seq<Contact>, contactId: string, i: nat)
    requires i < |cs| && cs[i].id == contactId
    requires forall j :: 0 <= j < i ==> cs[j].id != contactId
    ensures Find(cs, contactId) == Some(cs[i])
  {
    if i > 0 {
      FindFirst(cs[1..], contactId, i - 1);
    }
  }

  /** When ids are unique, looking up the id of any stored record yields
      exactly that record. */
  lemma {:induction false} FindUnique(cs: seq<Contact>, c: Contact)
    requires UniqueIds(cs) && c in cs
    ensures Find(cs, c.id) == Some(c)
  {
    var i :| 0 <= i < |cs| && cs[i] == c;
    FindFirst(cs, c.id, i);
  }

  /** Appending a record changes a lookup only for an id absent before, and
      for that id the lookup then yields the appended record. */
  lemma {:induction false} FindAppend(cs: seq<Contact>, c: Contact, contactId: string)
    ensures Find(cs + [c], contactId) ==
            if HasId(cs, contactId) then Find(cs, contactId)
            else if c.id == contactId then Some(c)
            else None
  {
    if cs != [] {
      assert (cs + [c])[1..] == cs[1..] + [c];
      FindAppend(cs[1..], c, contactId);
      assert HasId(cs, contactId) <==> cs[0].id == contactId || HasId(cs[1..], contactId) by {
        if HasId(cs[1..], contactId) {
          var i :| 0 <= i < |cs[1..]| && cs[1..][i].id == contactId;
          assert cs[i + 1].id == contactId;
        }
        if HasId(cs, contactId) && cs[0].id != contactId {
          var i :| 0 <= i < |cs| && cs[i].id == contactId;
          assert cs[1..][i - 1].id == contactId;
        }
      }
    } else {
      assert !HasId(cs, contactId);
    }
  }

  /** Filtering distributes over concatenation: the relative order of the
      records that are kept is the order they had. */
  lemma {:induction false} WithoutConcat(a: seq<Contact>, b: seq<Contact>, contactId: string)
    ensures Without(a + b, contactId) == Without(a, contactId) + Without(b, contactId)
  {
    if a == [] {
      assert a + b == b;
    } else {
      assert (a + b)[0] == a[0];
      assert (a + b)[1..] == a[1..] + b;
      WithoutConcat(a[1..], b, contactId);
    }
  }

  /** Filtering out an id that no record carries leaves the list as it is. */
  lemma {:induction false} WithoutAbsent(cs: seq<Contact>, contactId: string)
    requires !HasId(cs, contactId)
    ensures Without(cs, contactId) == cs
  {
    if cs != [] {
      assert cs[0].id != contactId;
      forall k | 0 <= k < |cs[1..]| ensures cs[1..][k].id != contactId {
        assert cs[1..][k] == cs[k + 1];
      }
      WithoutAbsent(cs[1..], contactId);
      assert cs == [cs[0]] + cs[1..];
    }
  }

  /** After filtering, no record carries the id. */
  lemma {:induction false} WithoutRemovesId(cs: seq<Contact>, contactId: string)
    ensures !HasId(Without(cs, contactId), contactId)
    ensures Find(Without(cs, contactId), contactId) == None
  {
    var r := Without(cs, contactId);
    forall i | 0 <= i < |r| ensures r[i].id != contactId {
      assert r[i] in r;
    }
  }

  /** Filtering twice by the same id is filtering once. */
  lemma {:induction false} WithoutIdempotent(cs: seq<Contact>, contactId: string)
    ensures Without(Without(cs, contactId), contactId) == Without(cs, contactId)
  {
    WithoutRemovesId(cs, contactId);
    WithoutAbsent(Without(cs, contactId), contactId);
  }

  /** Filtering keeps ids unique. */
  lemma {:induction false} WithoutUnique(cs: seq<Contact>, contactId: string)
    requires UniqueIds(cs)
    ensures UniqueIds(Without(cs, contactId))
  {
    if cs != [] {
      var tail := cs[1..];
      assert UniqueIds(tail) by {
        forall i, j | 0 <= i < j < |tail| ensures tail[i].id != tail[j].id {
          assert tail[i] == cs[i + 1] && tail[j] == cs[j + 1];
        }
      }
      WithoutUnique(tail, contactId);
      var rest := Without(tail, contactId);
      if cs[0].id != contactId {
        var r := [cs[0]] + rest;
        forall i, j | 0 <= i < j < |r| ensures r[i].id != r[j].id {
          if i == 0 {
            assert r[j] == rest[j - 1] && rest[j - 1] in rest;
            assert r[j] in tail;
            var k :| 0 <= k < |tail| && tail[k] == r[j];
            assert cs[k + 1] == r[j];
          } else {
            assert r[i] == rest[i - 1] && r[j] == rest[j - 1];
          }
        }
      }
    }
  }

  /** With unique ids, a remove that finds its id drops exactly one record. */
  lemma {:induction false} WithoutDropsOne(cs: seq<Contact>, contactId: string)
    requires UniqueIds(cs) && HasId(cs, contactId)
    ensures |Without(cs, contactId)| == |cs| - 1
  {
    var i :| 0 <= i < |cs| && cs[i].id == contactId;
    var before, after := cs[..i], cs[i + 1..];
    assert cs == before + [cs[i]] + after;
    forall k | 0 <= k < |before| ensures before[k].id != contactId {
      assert before[k] == cs[k];
    }
    forall k | 0 <= k < |after| ensures after[k].id != contactId {
      assert after[k] == cs[i + 1 + k];
    }
    WithoutConcat(before + [cs[i]], after, contactId);
    WithoutConcat(before, [cs[i]], contactId);
    WithoutAbsent(before, contactId);
    WithoutAbsent(after, contactId);
  }

  /** Appending a record whose id is fresh keeps ids unique. */
  lemma {:induction false} AppendUnique(cs: seq<Contact>, c: Contact)
    requires UniqueIds(cs) && !HasId(cs, c.id)
    ensures UniqueIds(cs + [c])
  {
    var r := cs + [c];
    forall i, j | 0 <= i < j < |r| ensures r[i].id != r[j].id {
      if j == |cs| {
        assert r[i] == cs[i];
      } else {
        assert r[i] == cs[i] && r[j] == cs[j];
      }
    }
  }

  /** Removing the id of a freshly appended record restores the list. */
  lemma RemoveUndoesAdd(cs: seq<Contact>, c: Contact)
    requires !HasId(cs, c.id)
    ensures Without(cs + [c], c.id) == cs
  {
    WithoutConcat(cs, [c], c.id);
    WithoutAbsent(cs, c.id);
    assert [c][1..] == [];
  }

  /** What `listContacts` shows: no data, an empty list, or a table. */
  datatype Listing = NoData | EmptyList | Table(rows: seq<Contact>)

  /** What `getContactById` reports. */
  datatype Lookup = LookupFailed | Missing | Found(contact: Contact)

  /** What `removeContact` reports. */
  datatype Removal = RemoveFailed | NotExist | Deleted

  /** What `addContact` reports. */
  datatype Addition = AddFailed | Added(contact: Contact)

  /** The backing file of the contact book. */
  class ContactStore {
    /** The parsed file, or `None` when reading or parsing it fails. */
    var contents: Option<seq<Contact>>
    /** Whether overwriting the file succeeds. */
    var writable: bool
    /** How many write attempts (calls of `writeContacts`) were made,
        whether or not they succeeded. */
    ghost var writes: nat

    constructor (initial: Option<seq<Contact>>, canWrite: bool)
      ensures contents == initial && writable == canWrite && writes == 0
    {
      contents := initial;
      writable := canWrite;
      writes := 0;
    }

    /** `readContacts`: the parsed list, or `None` (the JavaScript
        `undefined`) after a read error, which it logs and swallows. */
    method ReadContacts() returns (r: Option<seq<Contact>>)
      ensures r == contents
    {
      r := contents;
    }

    /** `writeContacts`: replaces the whole file; a failure is logged and
        swallowed, so the caller carries on and the old file stays. */
    method WriteContacts(data: seq<Contact>)
      modifies this
      ensures writes == old(writes) + 1 && writable == old(writable)
      ensures contents == if writable then Some(data) else old(contents)
    {
      writes := writes + 1;
      if writable {
        contents := Some(data);
      }
    }

    /** `listContacts`: an empty list is shown as such, distinct from a
        failed read. */
    method ListContacts() returns (r: Listing)
      ensures r == NoData <==> contents.None?
      ensures r == EmptyList <==> contents == Some([])
      ensures r.Table? ==> contents == Some(r.rows) && r.rows != []
    {
      var contacts := ReadContacts();
      if contacts.None? {
        return NoData;
      }
      if |contacts.value| == 0 {
        return EmptyList;
      }
      r := Table(contacts.value);
    }

    /** `getContactById`: the first record with the id, `Missing` when there
        is none, `LookupFailed` when `.find` is called on `undefined`. */
    method GetContactById(contactId: string) returns (r: Lookup)
      ensures r == LookupFailed <==> contents.None?
      ensures r == Missing <==> contents.Some? && !HasId(contents.value, contactId)
      ensures r.Found? ==> contents.Some? && Find(contents.value, contactId) == Some(r.contact)
    {
      var contacts := ReadContacts();
      if contacts.None? {
        return LookupFailed;
      }
      var contact := Find(contacts.value, contactId);
      if contact.None? {
        return Missing;
      }
      r := Found(contact.value);
    }

    /** `removeContact`: filters the id out and attempts to overwrite the file only when
        the filtered list is shorter. */
    method RemoveContact(contactId: string) returns (r: Removal)
      modifies this
      ensures writable == old(writable)
      ensures old(contents).None? ==>
                r == RemoveFailed && contents == old(contents) && writes == old(writes)
      ensures old(contents).Some? && !HasId(old(contents).value, contactId) ==>
                r == NotExist && contents == old(contents) && writes == old(writes)
      ensures old(contents).Some? && HasId(old(contents).value, contactId) ==>
                r == Deleted && writes == old(writes) + 1 &&
                contents == if writable then Some(Without(old(contents).value, contactId)) else old(contents)
      ensures r == Deleted && writable ==>
                contents.Some? && !HasId(contents.value, contactId) &&
                |contents.value| < |old(contents).value|
      ensures r == Deleted && writable && UniqueIds(old(contents).value) ==>
                UniqueIds(contents.value) && |contents.value| == |old(contents).value| - 1
    {
      var contacts := ReadContacts();
      if contacts.None? {
        return RemoveFailed;
      }
      var filtered := Without(contacts.value, contactId);
      if |filtered| == |contacts.value| {
        return NotExist;
      }
      WriteContacts(filtered);
      r := Deleted;
      WithoutRemovesId(contacts.value, contactId);
      if UniqueIds(contacts.value) {
        WithoutUnique(contacts.value, contactId);
        WithoutDropsOne(contacts.value, contactId);
      }
    }

    /** `addContact`: appends one record built verbatim from the arguments;
        `newId` stands for the `randomUUID()` drawn for it. */
    method AddContact(newId: string, name: string, email: string, phone: string) returns (r: Addition)
      modifies this
      ensures writable == old(writable)
      ensures old(contents).None? ==>
                r == AddFailed && contents == old(contents) && writes == old(writes)
      ensures old(contents).Some? ==>
                r == Added(Contact(newId, name, email, phone)) && writes == old(writes) + 1 &&
                contents == if writable then Some(old(contents).value + [r.contact]) else old(contents)
      ensures r.Added? && writable && !HasId(old(contents).value, newId) ==>
                Find(contents.value, newId) == Some(r.contact)
      ensures r.Added? && writable && !HasId(old(contents).value, newId) && UniqueIds(old(contents).value) ==>
                UniqueIds(contents.value)
    {
      var newContact := Contact(newId, name, email, phone);
      var contacts := ReadContacts();
      if contacts.None? {
        return AddFailed;
      }
      var updated := contacts.value + [newContact];
      WriteContacts(updated);
      r := Added(newContact);
      FindAppend(contacts.value, newContact, newId);
      if UniqueIds(contacts.value) && !HasId(contacts.value, newId) {
        AppendUnique(contacts.value, newContact);
      }
    }
  }

  /** Removing the same id twice. On a writable file the second call finds
      nothing to remove and writes nothing, and the list stays as the first
      call left it. On a file that cannot be written, the swallowed write
      failure keeps the id in the file, so both calls report the same outcome
      and removal is not idempotent. */
  method RemoveTwice(store: ContactStore, contactId: string) returns (first: Removal, second: Removal)
    modifies store
    ensures store.writable == old(store.writable)
    ensures old(store.contents).None? ==>
              first == RemoveFailed && second == RemoveFailed &&
              store.contents == old(store.contents) && store.writes == old(store.writes)
    ensures old(store.contents).Some? && store.writable ==>
              second == NotExist &&
              store.contents == Some(Without(old(store.contents).value, contactId)) &&
              store.writes == old(store.writes) + (if HasId(old(store.contents).value, contactId) then 1 else 0)
    ensures old(store.contents).Some? && !store.writable ==>
              first == second && store.contents == old(store.contents) &&
              store.writes == old(store.writes) + (if HasId(old(store.contents).value, contactId) then 2 else 0)
  {
    ghost var before := store.contents;
    first := store.RemoveContact(contactId);
    if before.Some? {
      if !HasId(before.value, contactId) {
        WithoutAbsent(before.value, contactId);
      }
      WithoutRemovesId(before.value, contactId);
    }
    second := store.RemoveContact(contactId);
  }

  /** Adding a contact with a fresh id and then removing that id leaves the
      list as it was. On a writable file both write attempts succeed; on a
      file that cannot be written the add still reports success after one
      failed write attempt, and the remove then finds
      nothing. */
  method AddThenRemove(store: ContactStore, newId: string, name: string, email: string, phone: string)
      returns (added: Addition, removed: Removal)
    requires store.contents.Some? ==> !HasId(store.contents.value, newId)
    modifies store
    ensures store.contents == old(store.contents) && store.writable == old(store.writable)
    ensures old(store.contents).None? ==>
              added == AddFailed && removed == RemoveFailed && store.writes == old(store.writes)
    ensures old(store.contents).Some? && store.writable ==>
              added.Added? && removed == Deleted && store.writes == old(store.writes) + 2
    ensures old(store.contents).Some? && !store.writable ==>
              added.Added? && removed == NotExist && store.writes == old(store.writes) + 1
  {
    ghost var before := store.contents;
    added := store.AddContact(newId, name, email, phone);
    if before.Some? {
      RemoveUndoesAdd(before.value, Contact(newId, name, email, phone));
      assert HasId(before.value + [added.contact], newId) by {
        assert (before.value + [added.contact])[|before.value|].id == newId;
      }
    }
    removed := store.RemoveContact(newId);
  }
}
