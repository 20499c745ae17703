/**
 * The address-book page: the form check that turns the four form fields into
 * a field-to-message error map, the submit handler that inserts or
 * merge-saves, the confirmed delete, the search over name, email and company,
 * and the list ordered by name.
 */
module ContactsPage {
  import opened Wrappers
  import opened Entities
  import opened Text
  import Seqs
  import opened Sorting
  import opened Store

  /** The form's four text fields. */
  datatype Form = Form(name: string, email: string, phone: string, company: string)

  /** The form as `resetForm` leaves it. */
  const EmptyForm := Form("", "", "", "")

  const NameRequired := "Name is required"
  const EmailRequired := "Email is required"
  const InvalidEmail := "Invalid email format"

  /** The form filled from a contact, as `startEdit` does. */
  function FormOf(c: Contact): Form {
    Form(c.name, c.email, c.phone, c.company)
  }

  /**
   * `{ ...contact, ...formData }`: the form's four fields over the contact;
   * only the id survives from the contact.
   */
  function Merged(c: Contact, f: Form): (r: Contact)
    ensures r.id == c.id && FormOf(r) == f
  {
    c.(name := f.name, email := f.email, phone := f.phone, company := f.company)
  }

  /** Editing a contact and submitting the form untouched saves the contact as it was. */
  lemma MergeUnchanged(c: Contact)
    ensures Merged(c, FormOf(c)) == c
  {
  }

  // ---------------------------------------------------------------- e-mail

  /** A character of the class `[^\s@]`. */
  predicate Plain(c: char) {
    !IsSpace(c) && c != '@'
  }

  predicate AllPlain(s: string) {
    forall i :: 0 <= i < |s| ==> Plain(s[i])
  }

  /**
   * `s` reads as `^[^\s@]+@[^\s@]+\.[^\s@]+$` with the "@" at `at` and the
   * escaped "." at `dot`: three non-empty runs of plain characters between
   * them and the ends.
   */
  predicate EmailSplit(s: string, at: int, dot: int) {
    && 0 < at && at + 1 < dot && dot + 1 < |s|
    && s[at] == '@' && s[dot] == '.'
    && AllPlain(s[..at]) && AllPlain(s[at + 1..dot]) && AllPlain(s[dot + 1..])
  }

  /** The regular expression accepts the whole of `s` for some choice of the "@" and the ".". */
  predicate EmailShaped(s: string) {
    exists at, dot :: 0 < at < dot < |s| && EmailSplit(s, at, dot)
  }

  /**
   * What the pattern admits: no white space anywhere, exactly one "@", neither
   * first nor last, and a "." strictly inside the part after it.
   */
  lemma EmailShapedMeaning(s: string)
    ensures EmailShaped(s) <==>
      exists at :: 0 < at < |s| && s[at] == '@'
        && (forall i :: 0 <= i < |s| && i != at ==> Plain(s[i]))
        && (exists dot :: at + 1 < dot < |s| - 1 && s[dot] == '.')
  {
    if EmailShaped(s) {
      var at, dot :| 0 < at < dot < |s| && EmailSplit(s, at, dot);
      forall i | 0 <= i < |s| && i != at ensures Plain(s[i]) {
        if i < at {
          assert s[i] == s[..at][i];
        } else if i < dot {
          assert s[i] == s[at + 1..dot][i - at - 1];
        } else if i > dot {
          assert s[i] == s[dot + 1..][i - dot - 1];
        }
      }
    }
    if exists at :: 0 < at < |s| && s[at] == '@'
        && (forall i :: 0 <= i < |s| && i != at ==> Plain(s[i]))
        && (exists dot :: at + 1 < dot < |s| - 1 && s[dot] == '.')
    {
      var at :| 0 < at < |s| && s[at] == '@'
        && (forall i :: 0 <= i < |s| && i != at ==> Plain(s[i]))
        && (exists dot :: at + 1 < dot < |s| - 1 && s[dot] == '.');
      var dot :| at + 1 < dot < |s| - 1 && s[dot] == '.';
      assert EmailSplit(s, at, dot);
    }
  }

  /** A string with white space at either end never matches, whatever lies between. */
  lemma PaddedNotShaped(s: string)
    requires s != [] && (IsSpace(s[0]) || IsSpace(s[|s| - 1]))
    ensures !EmailShaped(s)
  {
    EmailShapedMeaning(s);
  }

  /** An address with no "." has no top-level part and never matches. */
  lemma DotlessNotShaped(s: string)
    requires forall i :: 0 <= i < |s| ==> s[i] != '.'
    ensures !EmailShaped(s)
  {
  }

  /** An address with two "@" never matches. */
  lemma TwoAtsNotShaped(s: string, i: int, j: int)
    requires 0 <= i < j < |s| && s[i] == '@' && s[j] == '@'
    ensures !EmailShaped(s)
  {
    EmailShapedMeaning(s);
  }

  /** A plain address matches. */
  lemma PlainAddressShaped()
    ensures EmailShaped("jane@example.com")
  {
    var s := "jane@example.com";
    assert s[..4] == "jane" && s[5..12] == "example" && s[13..] == "com";
    assert AllPlain("jane") && AllPlain("example") && AllPlain("com");
    assert EmailSplit(s, 4, 12);
  }

  /** Malformed samples: a missing top-level part, a missing local part, a second "@". */
  lemma MalformedSamples()
    ensures !EmailShaped("jane@example")
    ensures !EmailShaped("@example.com")
    ensures !EmailShaped("a@b@c.d")
  {
    DotlessNotShaped("jane@example");
    TwoAtsNotShaped("a@b@c.d", 1, 3);
  }

  // ----------------------------------------------------------- validation

  /**
   * The error map `validateForm` builds: "name" when the trimmed name is
   * empty; "email" when the trimmed email is empty or, failing that, when the
   * untrimmed email does not match the pattern. Phone and company are never
   * checked.
   */
  function ErrorsOf(f: Form): (m: map<string, string>)
    ensures m.Keys <= {"name", "email"}
    ensures "name" in m <==> IsBlank(f.name)
    ensures "name" in m ==> m["name"] == NameRequired
    ensures "email" in m <==> IsBlank(f.email) || !EmailShaped(f.email)
    ensures "email" in m ==> m["email"] == (if IsBlank(f.email) then EmailRequired else InvalidEmail)
  {
    var named := if IsBlank(f.name) then map["name" := NameRequired] else map[];
    if IsBlank(f.email) then named["email" := EmailRequired]
    else if !EmailShaped(f.email) then named["email" := InvalidEmail]
    else named
  }

  /** The form passes exactly when the name is not blank and the email is not blank and matches. */
  lemma ValidIff(f: Form)
    ensures ErrorsOf(f) == map[] <==> !IsBlank(f.name) && !IsBlank(f.email) && EmailShaped(f.email)
  {
    if ErrorsOf(f) == map[] {
      assert "name" !in ErrorsOf(f) && "email" !in ErrorsOf(f);
    }
  }

  /**
   * Each field's error depends on that field alone: the name's on the name,
   * the email's on the email, and phone and company on nothing.
   */
  lemma ErrorsIndependent(f: Form, g: Form)
    ensures f.name == g.name ==> ("name" in ErrorsOf(f) <==> "name" in ErrorsOf(g))
    ensures f.email == g.email ==>
      ("email" in ErrorsOf(f) <==> "email" in ErrorsOf(g)) &&
      ("email" in ErrorsOf(f) ==> ErrorsOf(f)["email"] == ErrorsOf(g)["email"])
    ensures f.name == g.name && f.email == g.email ==> ErrorsOf(f) == ErrorsOf(g)
  {
  }

  /**
   * The pattern is tested on the untrimmed email: an address with white space
   * at either end is not blank, yet fails as malformed.
   */
  lemma PaddedEmailRejected(f: Form)
    requires !IsBlank(f.email) && f.email != []
    requires IsSpace(f.email[0]) || IsSpace(f.email[|f.email| - 1])
    ensures "email" in ErrorsOf(f) && ErrorsOf(f)["email"] == InvalidEmail
  {
    PaddedNotShaped(f.email);
  }

  /** The blank form fails on both required fields. */
  lemma EmptyFormRejected()
    ensures ErrorsOf(EmptyForm) == map["name" := NameRequired, "email" := EmailRequired]
  {
    assert IsBlank("");
  }

  // ----------------------------------------------------------------- search

  /** `c` passes the search: the lowercased search occurs in its lowercased name, email or company. */
  predicate Hit(search: string, c: Contact) {
    var q := Lower(search);
    Includes(Lower(c.name), q) || Includes(Lower(c.email), q) || Includes(Lower(c.company), q)
  }

  function HitFn(search: string): Contact -> bool {
    c => Hit(search, c)
  }

  /** `filteredContacts`. */
  function FilteredContacts(contacts: seq<Contact>, search: string): seq<Contact> {
    Seqs.Filter(contacts, HitFn(search))
  }

  /**
   * The search result is an order-preserving subsequence of the list holding
   * exactly the listed contacts that pass, so a list ordered by name stays so.
   */
  lemma FilteredContactsSpec(contacts: seq<Contact>, search: string)
    ensures Seqs.SubsequenceOf(FilteredContacts(contacts, search), contacts)
    ensures forall c :: c in FilteredContacts(contacts, search) <==> c in contacts && Hit(search, c)
    ensures Ascending(contacts, NameKey) ==> Ascending(FilteredContacts(contacts, search), NameKey)
  {
    Seqs.FilterSubsequence(contacts, HitFn(search));
    Seqs.FilterMembers(contacts, HitFn(search));
    if Ascending(contacts, NameKey) {
      FilterAscending(contacts, NameKey, HitFn(search));
    }
  }

  /** An empty search keeps every contact. */
  lemma EmptySearchKeepsAll(contacts: seq<Contact>)
    ensures FilteredContacts(contacts, "") == contacts
  {
    forall c | c in contacts ensures Hit("", c) {
      IncludesEmpty(Lower(c.name));
    }
    Seqs.FilterKeepsAll(contacts, HitFn(""));
  }

  /** The phone number is never searched. */
  lemma PhoneNotSearched(search: string, c: Contact, phone: string)
    ensures Hit(search, c.(phone := phone)) <==> Hit(search, c)
  {
  }

  /** The search ignores case: a search and its lowercase form find the same contacts. */
  lemma SearchIgnoresCase(contacts: seq<Contact>, search: string)
    ensures FilteredContacts(contacts, Lower(search)) == FilteredContacts(contacts, search)
  {
    LowerIdempotent(search);
    Seqs.FilterSame(contacts, HitFn(Lower(search)), HitFn(search));
  }

  // ------------------------------------------------------------------- list

  /** The `orderBy: { name: "asc" }` key. */
  function NameKey(c: Contact): Key {
    ByText(c.name)
  }

  /** `contactRepo.find({ orderBy: { name: "asc" } })` on the stored rows. */
  function ByName(rows: seq<Contact>): seq<Contact> {
    Sort(rows, NameKey)
  }

  /** The list holds every stored contact once per row, ordered by name, and namesakes in storage order. */
  lemma ByNameSpec(rows: seq<Contact>)
    ensures multiset(ByName(rows)) == multiset(rows)
    ensures Ascending(ByName(rows), NameKey)
    ensures forall k :: WithKey(ByName(rows), NameKey, k) == WithKey(rows, NameKey, k)
  {
    SortAscending(rows, NameKey);
    forall k ensures WithKey(ByName(rows), NameKey, k) == WithKey(rows, NameKey, k) {
      SortStable(rows, NameKey, k);
    }
  }

  /** Every contact the query returns is a stored one. */
  lemma ListedAreStored(rows: seq<Contact>)
    ensures forall c :: c in ByName(rows) ==> c in rows
  {
    forall c | c in ByName(rows) ensures c in rows {
      assert multiset(ByName(rows))[c] > 0;
    }
  }

  /** An id on a list of stored contacts is an id in the table. */
  lemma ListedIdStored(rows: seq<Contact>, contacts: seq<Contact>, id: nat)
    requires forall c :: c in contacts ==> c in rows
    requires HasId(contacts, ContactId, id)
    ensures HasId(rows, ContactId, id)
  {
    var i :| 0 <= i < |contacts| && ContactId(contacts[i]) == id;
    assert contacts[i] in rows;
    var j :| 0 <= j < |rows| && rows[j] == contacts[i];
  }

  /** Once the row with an id is removed, the reloaded list does not show that id. */
  lemma DeletedNotListed(rows: seq<Contact>, id: nat)
    ensures !HasId(ByName(Remove(rows, ContactId, id)), ContactId, id)
  {
    var left := Remove(rows, ContactId, id);
    var listed := ByName(left);
    RemoveDrops(rows, ContactId, id);
    ListedAreStored(left);
    forall k | 0 <= k < |listed| ensures ContactId(listed[k]) != id {
      assert listed[k] in left;
    }
  }

  /**
   * A merge-save of a listed contact: the lookup of its id now finds the
   * merged record, and every other row is as it was.
   */
  lemma SaveThenFind(rows: seq<Contact>, c: Contact, f: Form)
    requires Increasing(rows, ContactId) && c in rows
    ensures FindById(Replace(rows, ContactId, Merged(c, f)), ContactId, c.id) == Some(Merged(c, f))
    ensures |Replace(rows, ContactId, Merged(c, f))| == |rows|
    ensures forall i :: 0 <= i < |rows| && rows[i].id != c.id ==> Replace(rows, ContactId, Merged(c, f))[i] == rows[i]
  {
    var i :| 0 <= i < |rows| && rows[i] == c;
    ReplaceThenFind(rows, ContactId, Merged(c, f));
  }

  /** The page's state. */
  class Page {
    const store: ContactStore
    var contacts: seq<Contact>
    var search: string
    var showForm: bool
    var editingId: Option<nat>
    var formData: Form
    var errors: map<string, string>

    /** Every contact on the list is a stored row, so a handler given one may save or delete it. */
    ghost predicate Valid()
      reads this, store
    {
      store.Valid() && forall c :: c in contacts ==> c in store.rows
    }

    /** The list is the name-ordered query, as every handler that writes leaves it. */
    ghost predicate Loaded()
      reads this, store
    {
      contacts == ByName(store.rows)
    }

    /** Mounting the page: no search, the form hidden and blank, and the first load. */
    constructor (store: ContactStore)
      requires store.Valid()
      ensures Valid() && Loaded() && this.store == store
      ensures search == "" && !showForm && editingId == None && formData == EmptyForm && errors == map[]
    {
      this.store := store;
      contacts := ByName(store.rows);
      ListedAreStored(store.rows);
      search, showForm, editingId, formData, errors := "", false, None, EmptyForm, map[];
    }

    /** `loadContacts`. */
    method LoadContacts()
      requires store.Valid()
      modifies this`contacts
      ensures Valid() && Loaded()
    {
      contacts := ByName(store.rows);
      ListedAreStored(store.rows);
    }

    /** `validateForm`: the error map is built one field at a time and replaces the old one. */
    method ValidateForm() returns (ok: bool)
      modifies this`errors
      ensures errors == ErrorsOf(formData)
      ensures ok <==> errors == map[]
    {
      var newErrors: map<string, string> := map[];
      if IsBlank(formData.name) {
        newErrors := newErrors["name" := NameRequired];
      }
      if IsBlank(formData.email) {
        newErrors := newErrors["email" := EmailRequired];
      } else if !EmailShaped(formData.email) {
        newErrors := newErrors["email" := InvalidEmail];
      }
      errors := newErrors;
      ok := |newErrors| == 0;
      if !ok {
        assert newErrors != map[];
      }
    }

    /** `resetForm`: blank form, no errors, not editing, form hidden. */
    method ResetForm()
      modifies this`formData, this`errors, this`editingId, this`showForm
      ensures formData == EmptyForm && errors == map[] && editingId == None && !showForm
    {
      formData, errors, editingId, showForm := EmptyForm, map[], None, false;
    }

    /**
     * `handleSubmit`: an invalid form stores nothing and only shows its
     * errors. A valid one, when editing, merge-saves the form over the listed
     * contact with the editing id, or saves nothing when no listed contact
     * has it; when not editing, it inserts the form's fields as typed. Then
     * the form is reset and the list reloaded.
     */
    method HandleSubmit()
      requires Valid()
      modifies this`contacts, this`formData, this`errors, this`editingId, this`showForm, store
      ensures Valid()
      ensures ErrorsOf(old(formData)) != map[] ==>
        && errors == ErrorsOf(old(formData))
        && store.rows == old(store.rows) && store.nextId == old(store.nextId)
        && contacts == old(contacts) && formData == old(formData)
        && editingId == old(editingId) && showForm == old(showForm)
      ensures ErrorsOf(old(formData)) == map[] ==>
        && Loaded()
        && formData == EmptyForm && errors == map[] && editingId == None && !showForm
        && store.nextId == (if old(editingId).None? then old(store.nextId) + 1 else old(store.nextId))
        && (old(editingId).None? ==>
              store.rows == old(store.rows) + [Merged(NewContact, old(formData)).(id := old(store.nextId))])
        && (old(editingId).Some? && !HasId(old(contacts), ContactId, old(editingId).value) ==>
              store.rows == old(store.rows))
        && (old(editingId).Some? && HasId(old(contacts), ContactId, old(editingId).value) ==>
              store.rows == Replace(old(store.rows), ContactId,
                                    Merged(FindById(old(contacts), ContactId, old(editingId).value).value, old(formData))))
    {
      var ok := ValidateForm();
      if ok {
        if editingId.Some? {
          var contact := FindById(contacts, ContactId, editingId.value);
          if contact.Some? {
            assert contact.value in store.rows;
            ListedIdStored(store.rows, contacts, editingId.value);
            store.Save(Merged(contact.value, formData));
          }
        } else {
          var _ := store.Insert(Merged(NewContact, formData));
        }
        ResetForm();
        LoadContacts();
      }
    }

    /** `startEdit`: the form takes the contact's fields and opens in editing mode. */
    method StartEdit(contact: Contact)
      modifies this`formData, this`editingId, this`showForm
      ensures formData == FormOf(contact) && editingId == Some(contact.id) && showForm
    {
      formData, editingId, showForm := FormOf(contact), Some(contact.id), true;
    }

    /** `deleteContact`: nothing happens unless the user confirms; then the row goes and the list reloads. */
    method DeleteContact(id: nat, confirmed: bool)
      requires Valid() && HasId(contacts, ContactId, id)
      modifies this`contacts, store
      ensures Valid()
      ensures !confirmed ==> contacts == old(contacts) && store.rows == old(store.rows) && store.nextId == old(store.nextId)
      ensures confirmed ==>
        && Loaded() && store.rows == Remove(old(store.rows), ContactId, id) && !HasId(contacts, ContactId, id)
        && store.nextId == old(store.nextId)
    {
      if confirmed {
        ListedIdStored(store.rows, contacts, id);
        store.Delete(id);
        LoadContacts();
        DeletedNotListed(old(store.rows), id);
      }
    }

    /**
     * The header button: "Cancel" closes an open new-contact form; otherwise
     * ("Add Contact") it opens a blank new-contact form, also out of editing.
     */
    method ToggleForm()
      modifies this`formData, this`errors, this`editingId, this`showForm
      ensures formData == EmptyForm && errors == map[] && editingId == None
      ensures showForm <==> !(old(showForm) && old(editingId).None?)
    {
      if showForm && editingId.None? {
        ResetForm();
      } else {
        editingId, formData, errors, showForm := None, EmptyForm, map[], true;
      }
    }
  }
}
