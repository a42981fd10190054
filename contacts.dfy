/**
 * Contact records as read from the spreadsheet, and the alias-tolerant
 * resolution of the logical contact fields from them (createVCard in
 * src/generate-qr.js).
 *
 * A record maps column headers to cell text. JavaScript's `a || b || d`
 * over cell values becomes a first-match search over an ordered key list:
 * a missing column and an empty cell are both "falsy" and are skipped.
 */
module Contacts {

  datatype Option<T> = None | Some(value: T)

  /** One spreadsheet row: column header to cell text. */
  type Record = map<string, string>

  /** The cell under key, or "" when the row has no such column. */
  function Cell(rec: Record, key: string): (v: string)
    ensures key !in rec ==> v == ""
  {
    if key in rec then rec[key] else ""
  }

  /** keys[i] is the first key whose cell is non-empty. */
  predicate IsFirstHit(rec: Record, keys: seq<string>, i: int) {
    0 <= i < |keys| && Cell(rec, keys[i]) != "" &&
    forall j :: 0 <= j < i ==> Cell(rec, keys[j]) == ""
  }

  /** No key has a non-empty cell. */
  predicate NoHit(rec: Record, keys: seq<string>) {
    forall j :: 0 <= j < |keys| ==> Cell(rec, keys[j]) == ""
  }

  /**
   * The value of the first key, in order, whose cell is non-empty, or
   * default when there is none.
   */
  function Resolve(rec: Record, keys: seq<string>, default: string): (v: string)
    ensures forall i :: IsFirstHit(rec, keys, i) ==> v == Cell(rec, keys[i])
    ensures NoHit(rec, keys) ==> v == default
  {
    if keys == [] then default
    else if Cell(rec, keys[0]) != "" then Cell(rec, keys[0])
    else Resolve(rec, keys[1..], default)
  }

  /** Every key list either has a first hit or none at all, so Resolve is pinned down. */
  lemma {:induction false} FirstHitOrNone(rec: Record, keys: seq<string>)
    ensures NoHit(rec, keys) <==> !(exists i :: IsFirstHit(rec, keys, i))
  {
    if keys != [] && !NoHit(rec, keys) {
      if Cell(rec, keys[0]) != "" {
        assert IsFirstHit(rec, keys, 0);
      } else {
        assert !NoHit(rec, keys[1..]) by {
          var j :| 0 <= j < |keys| && Cell(rec, keys[j]) != "";
          assert keys[1..][j - 1] == keys[j];
        }
        FirstHitOrNone(rec, keys[1..]);
        var i :| IsFirstHit(rec, keys[1..], i);
        assert IsFirstHit(rec, keys, i + 1) by {
          forall j | 0 <= j < i + 1 ensures Cell(rec, keys[j]) == "" {
            if j > 0 { assert keys[j] == keys[1..][j - 1]; }
          }
        }
      }
    }
  }

  // Source keys per logical field, in priority order (src/generate-qr.js:60-74).
  const FirstNameKeys: seq<string> := ["firstName", "FirstName"]
  const LastNameKeys: seq<string> := ["lastName", "LastName"]
  const OrganizationKeys: seq<string> := ["organization", "Organization"]
  const TitleKeys: seq<string> := ["title", "Title", "designation"]
  const EmailKeys: seq<string> := ["email", "Email"]
  const PhoneKeys: seq<string> := ["workPhone", "WorkPhone", "mobile", "Mobile"]
  const WebsiteKeys: seq<string> := ["website", "Website"]
  const AddressKeys: seq<string> := ["address", "Address"]
  const NoteKeys: seq<string> := ["note", "Note"]

  const WorkAddressLabel: string := "Work Address"

  datatype PostalEntry = PostalEntry(addressLabel: string, street: string)

  /** The properties createVCard sets on the vCard object before formatting it. */
  datatype CardFields = CardFields(
    firstName: string,
    lastName: string,
    organization: string,
    title: string,
    email: string,
    workPhone: string,
    url: string,
    homeAddress: Option<PostalEntry>,
    note: string)

  /** The resolved phone: the cell the file name and the card both use. */
  function Phone(rec: Record): string {
    Resolve(rec, PhoneKeys, "")
  }

  function LastName(rec: Record): string {
    Resolve(rec, LastNameKeys, "")
  }

  /**
   * createVCard's field assignments. Normalisation is total: every field is
   * set; the postal entry exists exactly when an address cell is non-empty.
   */
  function CardFieldsOf(rec: Record): (c: CardFields)
    ensures c.homeAddress.Some? <==> Cell(rec, "address") != "" || Cell(rec, "Address") != ""
    ensures c.homeAddress.Some? ==> c.homeAddress.value.addressLabel == WorkAddressLabel
    ensures c.homeAddress.Some? ==>
      c.homeAddress.value.street == (if Cell(rec, "address") != "" then Cell(rec, "address") else Cell(rec, "Address"))
    ensures c.firstName == Resolve(rec, FirstNameKeys, "") && c.lastName == LastName(rec)
    ensures c.organization == Resolve(rec, OrganizationKeys, "")
    ensures c.title == Resolve(rec, TitleKeys, "")
    ensures c.email == Resolve(rec, EmailKeys, "")
    ensures c.workPhone == Phone(rec)
    ensures c.url == Resolve(rec, WebsiteKeys, "")
    ensures c.note == Resolve(rec, NoteKeys, "")
  {
    var street := Resolve(rec, AddressKeys, "");
    AddressResolution(rec);
    CardFields(
      Resolve(rec, FirstNameKeys, ""),
      LastName(rec),
      Resolve(rec, OrganizationKeys, ""),
      Resolve(rec, TitleKeys, ""),
      Resolve(rec, EmailKeys, ""),
      Phone(rec),
      Resolve(rec, WebsiteKeys, ""),
      if street != "" then Some(PostalEntry(WorkAddressLabel, street)) else None,
      Resolve(rec, NoteKeys, ""))
  }

  /** A two-key alias pair resolves to the first key's cell, else the second's, else the default. */
  lemma PairResolution(rec: Record, k1: string, k2: string, default: string)
    ensures Resolve(rec, [k1, k2], default) ==
      (if Cell(rec, k1) != "" then Cell(rec, k1) else if Cell(rec, k2) != "" then Cell(rec, k2) else default)
  {
    var keys := [k1, k2];
    if Cell(rec, k1) != "" {
      assert IsFirstHit(rec, keys, 0);
    } else if Cell(rec, k2) != "" {
      assert IsFirstHit(rec, keys, 1);
    } else {
      assert NoHit(rec, keys);
    }
  }

  /** The address alias pair resolves to the first non-empty of its two cells. */
  lemma AddressResolution(rec: Record)
    ensures Resolve(rec, AddressKeys, "") ==
      (if Cell(rec, "address") != "" then Cell(rec, "address") else Cell(rec, "Address"))
  {
    PairResolution(rec, "address", "Address", "");
  }

  /** workPhone wins over every other phone column, mobile included. */
  lemma WorkPhoneWins(rec: Record)
    requires Cell(rec, "workPhone") != ""
    ensures Phone(rec) == Cell(rec, "workPhone")
  {
    assert IsFirstHit(rec, PhoneKeys, 0);
  }

  /** mobile is used only when both work-phone spellings are empty. */
  lemma MobileFallback(rec: Record)
    requires Cell(rec, "workPhone") == "" && Cell(rec, "WorkPhone") == ""
    requires Cell(rec, "mobile") != ""
    ensures Phone(rec) == Cell(rec, "mobile")
  {
    assert IsFirstHit(rec, PhoneKeys, 2);
  }

  /** designation is the last resort for the title. */
  lemma DesignationFallback(rec: Record)
    requires Cell(rec, "title") == "" && Cell(rec, "Title") == ""
    ensures CardFieldsOf(rec).title == Cell(rec, "designation")
  {
    if Cell(rec, "designation") != "" {
      assert IsFirstHit(rec, TitleKeys, 2);
    } else {
      assert NoHit(rec, TitleKeys);
    }
  }
}
