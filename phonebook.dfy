/**
  The contact directory: an ordered, in-memory list of contacts and an id
  counter, with add, paged fetch, three field updaters, delete and three
  linear searches.  Persisting the list is the storage adapter's job; each
  mutating operation receives the adapter's answer (`saved`) as a parameter,
  and the clock reading (`now`) likewise.
*/
module PhoneBook {
  import opened Wrappers
  import opened Js
  import opened Models
  import opened Sanitize

  /** The largest id of a non-empty list (`Math.max` over the ids). */
  function MaxId(cs: seq<Contact>): (m: int)
    requires |cs| > 0
    ensures forall k :: 0 <= k < |cs| ==> cs[k].id <= m
    ensures exists k :: 0 <= k < |cs| && cs[k].id == m
  {
    if |cs| == 1 then cs[0].id
    else
      var m' := MaxId(cs[1..]);
      if cs[0].id >= m' then cs[0].id else m'
  }

  /** What a linear scan looks for. */
  datatype Query =
    | ById(id: int)
    | ByPhoneNo(phoneNo: Option<seq<string>>)
    | ByFirstName(needle: string)

  /**
    The scan stops at this contact: it matches, or (searching by name) its
    first name is absent, so that calling `includes` on it throws.
  */
  predicate Halts(q: Query, c: Contact) {
    match q
    case ById(id) => c.id == id
    case ByPhoneNo(p) => c.phoneNo == p
    case ByFirstName(n) => c.firstName.None? || Includes(c.firstName.value, n)
  }

  /** Where a front-to-back scan stops, or -1 when it runs off the end. */
  function FirstIndex(cs: seq<Contact>, q: Query): (k: int)
    ensures -1 <= k < |cs|
    ensures k >= 0 ==> Halts(q, cs[k])
    ensures forall j :: 0 <= j < |cs| && (k < 0 || j < k) ==> !Halts(q, cs[j])
  {
    if cs == [] then -1
    else if Halts(q, cs[0]) then 0
    else
      var k := FirstIndex(cs[1..], q);
      if k < 0 then -1 else k + 1
  }

  /** A scan that reaches index i without stopping earlier and stops there answers i. */
  lemma FirstIndexAt(cs: seq<Contact>, q: Query, i: int)
    requires 0 <= i < |cs| && Halts(q, cs[i])
    requires forall j :: 0 <= j < i ==> !Halts(q, cs[j])
    ensures FirstIndex(cs, q) == i
  {
  }

  /** The page arithmetic behind the cursors: page p > 1 exists exactly when (p-1)*offset < n. */
  lemma PageArith(page: int, offset: int, n: nat)
    requires page >= 1 && offset >= 1
    ensures (page - 1) * offset >= 0
    ensures page > 1 ==> (page - 1 < CeilDiv(n, offset) <==> (page - 1) * offset < n)
    ensures 1 < CeilDiv(n, offset) <==> offset < n
  {
    MulMono(0, page - 1, offset);
    BelowCeilDiv(page - 1, n, offset);
    BelowCeilDiv(1, n, offset);
  }

  ghost predicate UniqueIds(cs: seq<Contact>) {
    forall i, j :: 0 <= i < j < |cs| ==> cs[i].id != cs[j].id
  }

  class PhoneBookService {
    var contacts: seq<Contact>
    var idCount: int
    /**
      The sanitizer's country-code normaliser.  The sanitizer the
      service uses has no such method, so the model takes it as given.
    */
    const sanitizeCountryCode: string -> Option<string>

    /** The counter is at least every stored id, so counter + 1 is a fresh id. */
    ghost predicate Valid()
      reads this
    {
      forall k :: 0 <= k < |contacts| ==> contacts[k].id <= idCount
    }

    /** Takes over the list the storage adapter loaded; the counter starts at its largest id, or 0. */
    constructor (loaded: seq<Contact>, countryCodeSanitizer: string -> Option<string>)
      ensures Valid()
      ensures contacts == loaded
      ensures idCount == if |loaded| > 0 then MaxId(loaded) else 0
      ensures sanitizeCountryCode == countryCodeSanitizer
    {
      contacts := loaded;
      idCount := if |loaded| > 0 then MaxId(loaded) else 0;
      sanitizeCountryCode := countryCodeSanitizer;
    }

    /**
      Refuses a phone number some stored contact already has.  Otherwise
      takes the next id, appends the sanitized contact and reports
      whether the save succeeded; a failed save keeps the append and the
      new counter.
    */
    method AddContact(countryCode: string, phoneNo: string, firstName: string,
                      lastName: Option<string>, email: Option<string>, now: Timestamp, saved: bool)
      returns (ok: bool)
      requires Valid()
      modifies this
      ensures Valid()
      ensures UniqueIds(old(contacts)) ==> UniqueIds(contacts)
      ensures FirstIndex(old(contacts), ByPhoneNo(SanitizePhoneNo(phoneNo))) >= 0 ==>
        !ok && contacts == old(contacts) && idCount == old(idCount)
      ensures FirstIndex(old(contacts), ByPhoneNo(SanitizePhoneNo(phoneNo))) < 0 ==>
        ok == saved && idCount == old(idCount) + 1 &&
        contacts == old(contacts) + [Contact(
          idCount,
          SanitizePhoneNo(phoneNo),
          sanitizeCountryCode(countryCode),
          SanitizeName(Some(firstName)),
          if lastName.Some? then SanitizeName(lastName) else None,
          if email.Some? then SanitizeEmail(email.value) else None,
          now,
          None)] &&
        forall k :: 0 <= k < |old(contacts)| ==> old(contacts)[k].id < idCount
    {
      var sanitizedPhoneNo := SanitizePhoneNo(phoneNo);
      var i := 0;
      while i < |contacts|
        invariant 0 <= i <= |contacts|
        invariant contacts == old(contacts) && idCount == old(idCount)
        invariant forall j :: 0 <= j < i ==> !Halts(ByPhoneNo(sanitizedPhoneNo), contacts[j])
      {
        if contacts[i].phoneNo == sanitizedPhoneNo {
          FirstIndexAt(contacts, ByPhoneNo(sanitizedPhoneNo), i);
          return false;
        }
        i := i + 1;
      }

      idCount := idCount + 1;
      var id := idCount;
      var sanitizedCountryCode := sanitizeCountryCode(countryCode);
      var sanitizedEmail: Option<string> := None;
      if email.Some? {
        sanitizedEmail := SanitizeEmail(email.value);
      }
      var sanitizedFirstName := SanitizeName(Some(firstName));
      var sanitizedLastName: Option<string> := None;
      if lastName.Some? {
        sanitizedLastName := SanitizeName(lastName);
      }
      var contact := Contact(id, sanitizedPhoneNo, sanitizedCountryCode, sanitizedFirstName,
                             sanitizedLastName, sanitizedEmail, now, None);
      contacts := contacts + [contact];
      ok := saved;
    }

    /**
      Page `page` of `offset` contacts in list order, with the cursors the
      service computes as written: `previous` is always -1, and `next` is worked
      out from the page before the requested one whenever page > 1.
      FetchContactsPage and FetchContactsCursors state what it returns.
    */
    function FetchContacts(page: int, offset: int): (r: PaginatedResponse)
      reads this
      requires page >= 1 && offset >= 1
      ensures |r.data| <= offset
    {
      PageArith(page, offset, |contacts|);
      var startIndex := (page - 1) * offset;
      var endIndex := startIndex + offset;
      var data := Slice(contacts, startIndex, endIndex);
      var totalPages := CeilDiv(|contacts|, offset);
      var shown := if page > 1 then page - 1 else page;
      var next := if shown < totalPages then shown + 1 else -1;
      PaginatedResponse(data, -1, next)
    }

    /**
      The fetch with the cursors it is meant to return: the data of
      FetchContacts, `next` naming page + 1 exactly when that page holds
      contacts, and `previous` naming page - 1 on every page but the first.
    */
    function FetchContactsIntended(page: int, offset: int): (r: PaginatedResponse)
      reads this
      requires page >= 1 && offset >= 1
      ensures r.data == FetchContacts(page, offset).data
      ensures r.next == -1 || r.next == page + 1
      ensures r.next != -1 <==> FetchContacts(page + 1, offset).data != []
      ensures r.previous == if page > 1 then page - 1 else -1
    {
      FetchContactsPage(this, page + 1, offset);
      PageArith(page + 1, offset, |contacts|);
      var totalPages := CeilDiv(|contacts|, offset);
      var next := if page < totalPages then page + 1 else -1;
      var previous := if page > 1 then page - 1 else -1;
      PaginatedResponse(FetchContacts(page, offset).data, previous, next)
    }

    /**
      Sanitizes first, then gives the first contact with this id the new
      phone number, country code and update time; fails, changing
      nothing, when no contact has the id.
    */
    method UpdatePhoneNo(id: int, countryCode: string, phoneNo: string, now: Timestamp, saved: bool)
      returns (ok: bool)
      requires Valid()
      modifies this`contacts
      ensures Valid()
      ensures UniqueIds(old(contacts)) ==> UniqueIds(contacts)
      ensures FirstIndex(old(contacts), ById(id)) < 0 ==> !ok && contacts == old(contacts)
      ensures FirstIndex(old(contacts), ById(id)) >= 0 ==>
        var k := FirstIndex(old(contacts), ById(id));
        ok == saved &&
        contacts == old(contacts)[k := old(contacts)[k].(
          phoneNo := SanitizePhoneNo(phoneNo),
          countryCode := sanitizeCountryCode(countryCode),
          updatedAt := Some(now))]
    {
      var sanitizedPhoneNo := SanitizePhoneNo(phoneNo);
      var sanitizedCountryCode := sanitizeCountryCode(countryCode);
      var didUpdate := false;
      var i := 0;
      while i < |contacts|
        invariant 0 <= i <= |contacts|
        invariant contacts == old(contacts)
        invariant forall j :: 0 <= j < i ==> !Halts(ById(id), contacts[j])
      {
        if contacts[i].id == id {
          contacts := contacts[i := contacts[i].(
            phoneNo := sanitizedPhoneNo, countryCode := sanitizedCountryCode, updatedAt := Some(now))];
          didUpdate := true;
          FirstIndexAt(old(contacts), ById(id), i);
          break;
        }
        i := i + 1;
      }
      if !didUpdate {
        return false;
      }
      ok := saved;
    }

    /** As UpdatePhoneNo, for the first name. */
    method UpdateFirstName(id: int, firstName: string, now: Timestamp, saved: bool) returns (ok: bool)
      requires Valid()
      modifies this`contacts
      ensures Valid()
      ensures UniqueIds(old(contacts)) ==> UniqueIds(contacts)
      ensures FirstIndex(old(contacts), ById(id)) < 0 ==> !ok && contacts == old(contacts)
      ensures FirstIndex(old(contacts), ById(id)) >= 0 ==>
        var k := FirstIndex(old(contacts), ById(id));
        ok == saved &&
        contacts == old(contacts)[k := old(contacts)[k].(
          firstName := SanitizeName(Some(firstName)), updatedAt := Some(now))]
    {
      var sanitizedFirstName := SanitizeName(Some(firstName));
      var didUpdate := false;
      var i := 0;
      while i < |contacts|
        invariant 0 <= i <= |contacts|
        invariant contacts == old(contacts)
        invariant forall j :: 0 <= j < i ==> !Halts(ById(id), contacts[j])
      {
        if contacts[i].id == id {
          contacts := contacts[i := contacts[i].(firstName := sanitizedFirstName, updatedAt := Some(now))];
          didUpdate := true;
          FirstIndexAt(old(contacts), ById(id), i);
          break;
        }
        i := i + 1;
      }
      if !didUpdate {
        return false;
      }
      ok := saved;
    }

    /** As UpdatePhoneNo, for the last name. */
    method UpdateLastName(id: int, lastName: string, now: Timestamp, saved: bool) returns (ok: bool)
      requires Valid()
      modifies this`contacts
      ensures Valid()
      ensures UniqueIds(old(contacts)) ==> UniqueIds(contacts)
      ensures FirstIndex(old(contacts), ById(id)) < 0 ==> !ok && contacts == old(contacts)
      ensures FirstIndex(old(contacts), ById(id)) >= 0 ==>
        var k := FirstIndex(old(contacts), ById(id));
        ok == saved &&
        contacts == old(contacts)[k := old(contacts)[k].(
          lastName := SanitizeName(Some(lastName)), updatedAt := Some(now))]
    {
      var sanitizedLastName := SanitizeName(Some(lastName));
      var didUpdate := false;
      var i := 0;
      while i < |contacts|
        invariant 0 <= i <= |contacts|
        invariant contacts == old(contacts)
        invariant forall j :: 0 <= j < i ==> !Halts(ById(id), contacts[j])
      {
        if contacts[i].id == id {
          contacts := contacts[i := contacts[i].(lastName := sanitizedLastName, updatedAt := Some(now))];
          didUpdate := true;
          FirstIndexAt(old(contacts), ById(id), i);
          break;
        }
        i := i + 1;
      }
      if !didUpdate {
        return false;
      }
      ok := saved;
    }

    /** Removes the first contact with this id, keeping the others in order; fails when there is none. */
    method DeleteContact(id: int, saved: bool) returns (ok: bool)
      requires Valid()
      modifies this`contacts
      ensures Valid()
      ensures UniqueIds(old(contacts)) ==> UniqueIds(contacts)
      ensures FirstIndex(old(contacts), ById(id)) < 0 ==> !ok && contacts == old(contacts)
      ensures FirstIndex(old(contacts), ById(id)) >= 0 ==>
        var k := FirstIndex(old(contacts), ById(id));
        ok == saved && contacts == old(contacts)[..k] + old(contacts)[k + 1..]
    {
      var index := -1;
      var i := 0;
      while i < |contacts|
        invariant 0 <= i <= |contacts|
        invariant index == -1
        invariant forall j :: 0 <= j < i ==> !Halts(ById(id), contacts[j])
      {
        if contacts[i].id == id {
          index := i;
          FirstIndexAt(contacts, ById(id), i);
          break;
        }
        i := i + 1;
      }
      if index > -1 {
        contacts := contacts[..index] + contacts[index + 1..];
      } else {
        return false;
      }
      ok := saved;
    }

    /**
      The first contact whose first name contains the trimmed name (the
      last name is never looked at).  A contact without a first name met
      before any match makes `includes` throw, and the search answers None.
    */
    method SearchContactByName(name: string) returns (r: Option<Contact>)
      ensures var k := FirstIndex(contacts, ByFirstName(SanitizeName(Some(name)).value));
        r == if k < 0 || contacts[k].firstName.None? then None else Some(contacts[k])
    {
      var sanitizedName := SanitizeName(Some(name)).value;
      var contactDetails: Option<Contact> := None;
      var i := 0;
      while i < |contacts|
        invariant 0 <= i <= |contacts|
        invariant contactDetails == None
        invariant forall j :: 0 <= j < i ==> !Halts(ByFirstName(sanitizedName), contacts[j])
      {
        if contacts[i].firstName.None? {
          FirstIndexAt(contacts, ByFirstName(sanitizedName), i);
          return None;
        }
        if Includes(contacts[i].firstName.value, sanitizedName) {
          contactDetails := Some(contacts[i]);
          FirstIndexAt(contacts, ByFirstName(sanitizedName), i);
          break;
        }
        i := i + 1;
      }
      r := contactDetails;
    }

    /** The first contact with exactly this id. */
    method SearchContactById(id: int) returns (r: Option<Contact>)
      ensures var k := FirstIndex(contacts, ById(id));
        r == if k < 0 then None else Some(contacts[k])
    {
      var contactDetails: Option<Contact> := None;
      var i := 0;
      while i < |contacts|
        invariant 0 <= i <= |contacts|
        invariant contactDetails == None
        invariant forall j :: 0 <= j < i ==> !Halts(ById(id), contacts[j])
      {
        if contacts[i].id == id {
          contactDetails := Some(contacts[i]);
          FirstIndexAt(contacts, ById(id), i);
          break;
        }
        i := i + 1;
      }
      r := contactDetails;
    }

    /** The first contact whose stored phone number equals the sanitized one, compared by value. */
    method SearchContactByPhoneNo(phoneNo: string) returns (r: Option<Contact>)
      ensures var k := FirstIndex(contacts, ByPhoneNo(SanitizePhoneNo(phoneNo)));
        r == if k < 0 then None else Some(contacts[k])
    {
      var sanitizedPhoneNo := SanitizePhoneNo(phoneNo);
      var contactDetails: Option<Contact> := None;
      var i := 0;
      while i < |contacts|
        invariant 0 <= i <= |contacts|
        invariant contactDetails == None
        invariant forall j :: 0 <= j < i ==> !Halts(ByPhoneNo(sanitizedPhoneNo), contacts[j])
      {
        if contacts[i].phoneNo == sanitizedPhoneNo {
          contactDetails := Some(contacts[i]);
          FirstIndexAt(contacts, ByPhoneNo(sanitizedPhoneNo), i);
          break;
        }
        i := i + 1;
      }
      r := contactDetails;
    }
  }

  /**
    The page holds the contacts from index (page - 1) * offset on, in list
    order, at most `offset` of them; a page past the end is empty.
  */
  lemma FetchContactsPage(svc: PhoneBookService, page: int, offset: int)
    requires page >= 1 && offset >= 1
    ensures var r := svc.FetchContacts(page, offset); var start := (page - 1) * offset;
      |r.data| == (if start < |svc.contacts| then Min(offset, |svc.contacts| - start) else 0) &&
      forall k :: 0 <= k < |r.data| ==> start + k < |svc.contacts| && r.data[k] == svc.contacts[start + k]
  {
    PageArith(page, offset, |svc.contacts|);
  }

  /**
    The cursors as written: `previous` is always -1; on page 1 `next` is 2
    when there is a second page; on a later page p it is p itself (not p + 1)
    when page p holds contacts, and -1 otherwise.
  */
  lemma FetchContactsCursors(svc: PhoneBookService, page: int, offset: int)
    requires page >= 1 && offset >= 1
    ensures var r := svc.FetchContacts(page, offset);
      r.previous == -1 &&
      (page == 1 ==> r.next == if offset < |svc.contacts| then 2 else -1) &&
      (page > 1 ==> r.next == if r.data != [] then page else -1)
  {
    FetchContactsPage(svc, page, offset);
    PageArith(page, offset, |svc.contacts|);
  }

  /** A contact whose id is above every stored id is what a search by that id finds once appended. */
  lemma FreshIdIsFound(cs: seq<Contact>, c: Contact)
    requires forall k :: 0 <= k < |cs| ==> cs[k].id < c.id
    ensures FirstIndex(cs + [c], ById(c.id)) == |cs|
  {
    FirstIndexAt(cs + [c], ById(c.id), |cs|);
  }

  /** Appending a contact with a fresh id keeps the ids distinct. */
  lemma FreshIdKeepsUnique(cs: seq<Contact>, c: Contact)
    requires UniqueIds(cs)
    requires forall k :: 0 <= k < |cs| ==> cs[k].id < c.id
    ensures UniqueIds(cs + [c])
  {
  }

  /**
    JavaScript's `===` as the service applies it to phone numbers: the
    sanitized number is an array built by this very call, so it is the same
    object as no stored value, and only two `undefined`s compare equal.
  */
  predicate StrictEqualsFresh(stored: Option<seq<string>>, built: Option<seq<string>>) {
    stored.None? && built.None?
  }

  /**
    As written, the duplicate scan of addContact (and the scan of
    searchContactByPhoneNo) never stops at a contact holding the very same
    valid number, although comparing by value finds it.
  */
  lemma DuplicateMissedAsWritten(cs: seq<Contact>, phoneNo: string)
    requires SanitizePhoneNo(phoneNo).Some?
    requires FirstIndex(cs, ByPhoneNo(SanitizePhoneNo(phoneNo))) >= 0
    ensures cs[FirstIndex(cs, ByPhoneNo(SanitizePhoneNo(phoneNo)))].phoneNo == SanitizePhoneNo(phoneNo)
    ensures forall j :: 0 <= j < |cs| ==> !StrictEqualsFresh(cs[j].phoneNo, SanitizePhoneNo(phoneNo))
  {
  }

  /** Once a contact is stored, adding its phone number again is refused as a duplicate. */
  lemma AddedPhoneIsDuplicate(cs: seq<Contact>, c: Contact)
    ensures FirstIndex(cs + [c], ByPhoneNo(c.phoneNo)) >= 0
  {
    assert Halts(ByPhoneNo(c.phoneNo), (cs + [c])[|cs|]);
  }

  /** Replacing a contact by one with the same id leaves every search by id where it was. */
  lemma {:induction false} SameIdUpdateKeepsIndex(cs: seq<Contact>, k: int, c: Contact, id: int)
    requires 0 <= k < |cs| && c.id == cs[k].id
    ensures FirstIndex(cs[k := c], ById(id)) == FirstIndex(cs, ById(id))
  {
    if k > 0 {
      assert cs[k := c][1..] == cs[1..][k - 1 := c];
      SameIdUpdateKeepsIndex(cs[1..], k - 1, c, id);
    }
  }

  /** Removing index k shifts the later contacts down by one. */
  lemma RemoveAt(cs: seq<Contact>, k: int)
    requires 0 <= k < |cs|
    ensures |cs[..k] + cs[k + 1..]| == |cs| - 1
    ensures forall j :: 0 <= j < |cs| - 1 ==> (cs[..k] + cs[k + 1..])[j] == if j < k then cs[j] else cs[j + 1]
    ensures multiset(cs[..k] + cs[k + 1..]) + multiset{cs[k]} == multiset(cs)
  {
    assert cs == cs[..k] + [cs[k]] + cs[k + 1..];
  }

  /**
    With distinct ids, deleting the contact a search by id finds removes
    that id altogether, keeps the ids distinct and drops exactly one
    contact from the multiset of contacts.
  */
  lemma DeleteRemovesId(cs: seq<Contact>, id: int)
    requires UniqueIds(cs)
    requires FirstIndex(cs, ById(id)) >= 0
    ensures var k := FirstIndex(cs, ById(id));
      var rest := cs[..k] + cs[k + 1..];
      FirstIndex(rest, ById(id)) < 0 &&
      UniqueIds(rest) &&
      multiset(rest) + multiset{cs[k]} == multiset(cs)
  {
    var k := FirstIndex(cs, ById(id));
    RemoveAt(cs, k);
    var rest := cs[..k] + cs[k + 1..];
    forall j | 0 <= j < |rest|
      ensures !Halts(ById(id), rest[j])
    {
      if j >= k {
        assert cs[k].id != cs[j + 1].id;
      }
    }
    forall a, b | 0 <= a < b < |rest|
      ensures rest[a].id != rest[b].id
    {
      var a', b' := if a < k then a else a + 1, if b < k then b else b + 1;
      assert rest[a] == cs[a'] && rest[b] == cs[b'] && a' < b';
    }
  }

  /** Pages 1..k of a paged fetch, concatenated in order. */
  ghost function Browse(svc: PhoneBookService, offset: int, k: nat): seq<Contact>
    reads svc
    requires offset >= 1
  {
    if k == 0 then [] else Browse(svc, offset, k - 1) + svc.FetchContacts(k, offset).data
  }

  /** Page p is the slice of the list between (p - 1) * offset and p * offset, cut off at its end. */
  lemma PageIsSlice(svc: PhoneBookService, page: int, offset: int)
    requires page >= 1 && offset >= 1
    ensures 0 <= (page - 1) * offset <= page * offset
    ensures var n := |svc.contacts|;
      svc.FetchContacts(page, offset).data == svc.contacts[Min((page - 1) * offset, n)..Min(page * offset, n)]
  {
    var n := |svc.contacts|;
    var start := (page - 1) * offset;
    assert page * offset == start + offset;
    MulMono(0, page - 1, offset);
    FetchContactsPage(svc, page, offset);
    var d := svc.FetchContacts(page, offset).data;
    var e := svc.contacts[Min(start, n)..Min(start + offset, n)];
    assert |d| == |e|;
    forall k | 0 <= k < |d|
      ensures d[k] == e[k]
    {
      assert d[k] == svc.contacts[start + k];
    }
    SameElements(d, e);
  }

  /** The first k pages are the first k * offset contacts (or all of them). */
  lemma {:induction false} BrowsePrefix(svc: PhoneBookService, offset: int, k: nat)
    requires offset >= 1
    ensures Browse(svc, offset, k) == svc.contacts[..Min(k * offset, |svc.contacts|)]
  {
    if k > 0 {
      BrowsePrefix(svc, offset, k - 1);
      PageIsSlice(svc, k, offset);
      var n := |svc.contacts|;
      var lo, hi := Min((k - 1) * offset, n), Min(k * offset, n);
      assert svc.contacts[..hi] == svc.contacts[..lo] + svc.contacts[lo..hi];
    }
  }

  /** Browsing pages 1 to ceil(n / offset) gives back every contact once, in order. */
  lemma BrowseAllPages(svc: PhoneBookService, offset: int)
    requires offset >= 1
    ensures Browse(svc, offset, CeilDiv(|svc.contacts|, offset)) == svc.contacts
  {
    BrowsePrefix(svc, offset, CeilDiv(|svc.contacts|, offset));
  }

  /** The pages a browser visits from `page` by following `next`, at most `steps` times. */
  ghost function Visits(svc: PhoneBookService, offset: int, page: int, steps: nat): seq<int>
    reads svc
    requires offset >= 1 && page >= 1
    decreases steps
  {
    var next := svc.FetchContacts(page, offset).next;
    if steps == 0 || next < 1 then [page] else [page] + Visits(svc, offset, next, steps - 1)
  }

  /** Following the as-written `next` cursor from page 1 or 2 never leaves pages 1 and 2. */
  lemma {:induction false} VisitsStayOnFirstTwoPages(svc: PhoneBookService, offset: int, page: int, steps: nat)
    requires offset >= 1 && 1 <= page <= 2
    decreases steps
    ensures forall i :: 0 <= i < |Visits(svc, offset, page, steps)| ==> 1 <= Visits(svc, offset, page, steps)[i] <= 2
  {
    FetchContactsCursors(svc, page, offset);
    var next := svc.FetchContacts(page, offset).next;
    if steps > 0 && next >= 1 {
      VisitsStayOnFirstTwoPages(svc, offset, next, steps - 1);
    }
  }

  /**
    With more than two pages of contacts, page 3 holds contacts but is
    never reached by following `next` from page 1, however many steps.
  */
  lemma BrowsingStallsAsWritten(svc: PhoneBookService, offset: int, steps: nat)
    requires offset >= 1 && |svc.contacts| > 2 * offset
    ensures svc.FetchContacts(3, offset).data != []
    ensures 3 !in Visits(svc, offset, 1, steps)
  {
    FetchContactsPage(svc, 3, offset);
    assert (3 - 1) * offset == 2 * offset;
    VisitsStayOnFirstTwoPages(svc, offset, 1, steps);
  }

  /** The pages visited from `page` by following the intended `next` cursor. */
  ghost function IntendedVisits(svc: PhoneBookService, offset: int, page: int, steps: nat): seq<int>
    reads svc
    requires offset >= 1 && page >= 1
    decreases steps
  {
    var next := svc.FetchContactsIntended(page, offset).next;
    if steps == 0 || next < 1 then [page] else [page] + IntendedVisits(svc, offset, next, steps - 1)
  }

  /** The intended `next` cursor counts up to the last page, ceil(n / offset). */
  lemma IntendedNextCounts(svc: PhoneBookService, offset: int, page: int)
    requires offset >= 1 && page >= 1
    ensures svc.FetchContactsIntended(page, offset).next ==
      if page < CeilDiv(|svc.contacts|, offset) then page + 1 else -1
  {
  }

  /**
    Following the intended `next` cursor from page p visits p, p + 1, ...
    up to the last page that holds contacts (or as far as the steps allow).
  */
  lemma {:induction false} IntendedVisitsAreConsecutive(svc: PhoneBookService, offset: int, page: int, steps: nat)
    requires offset >= 1 && 1 <= page <= CeilDiv(|svc.contacts|, offset)
    decreases steps
    ensures var v := IntendedVisits(svc, offset, page, steps);
      |v| == Min(steps, CeilDiv(|svc.contacts|, offset) - page) + 1 &&
      forall i :: 0 <= i < |v| ==> v[i] == page + i
  {
    IntendedNextCounts(svc, offset, page);
    var next := svc.FetchContactsIntended(page, offset).next;
    if steps > 0 && next >= 1 {
      IntendedVisitsAreConsecutive(svc, offset, next, steps - 1);
    }
  }

  /** With the intended cursor, browsing from page 1 reaches every page that holds contacts. */
  lemma IntendedBrowsingReachesEveryPage(svc: PhoneBookService, offset: int, page: int)
    requires offset >= 1 && 1 <= page
    requires svc.FetchContacts(page, offset).data != []
    ensures page in IntendedVisits(svc, offset, 1, page - 1)
  {
    var n := |svc.contacts|;
    FetchContactsPage(svc, page, offset);
    PageArith(page, offset, n);
    PageArith(1, offset, n);
    IntendedVisitsAreConsecutive(svc, offset, 1, page - 1);
    var v := IntendedVisits(svc, offset, 1, page - 1);
    assert v[page - 1] == page;
  }
}
