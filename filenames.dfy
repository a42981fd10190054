/**
 * The output file name of one contact (generateQrCodeForContact,
 * src/generate-qr.js lines 99-108):
 *
 *   {sanitise(firstName-lastName) or "contact"}-{sanitise(phone) or timestamp}.png
 *
 * where firstName falls back to "unknown". The timestamp (Date.now()) is
 * a parameter.
 */
module Filenames {
  import opened Sanitize
  import opened Decimal
  import opened Contacts

  const UnknownFirstName: string := "unknown"
  const ContactFallback: string := "contact"
  const PngExtension: string := ".png"

  /**
   * The first name as the file name sees it: `firstName`, else `FirstName`,
   * else "unknown". It is never empty.
   */
  function FileFirstName(rec: Record): (v: string)
    ensures v != ""
    ensures Cell(rec, "firstName") != "" ==> v == Cell(rec, "firstName")
    ensures Cell(rec, "firstName") == "" && Cell(rec, "FirstName") != "" ==> v == Cell(rec, "FirstName")
    ensures NoHit(rec, FirstNameKeys) ==> v == UnknownFirstName
  {
    PairResolution(rec, "firstName", "FirstName", UnknownFirstName);
    Resolve(rec, FirstNameKeys, UnknownFirstName)
  }

  /**
   * The `${firstName}-${lastName}` string that is sanitised into the name
   * part. The joining hyphen adds no letter or digit: those of the first
   * name come first, then those of the last name.
   */
  function FullName(rec: Record): (s: string)
    ensures Alnums(ToLower(s)) == Alnums(ToLower(FileFirstName(rec))) + Alnums(ToLower(LastName(rec)))
  {
    var first, last := FileFirstName(rec), LastName(rec);
    HyphenJoinLetters(first, last);
    first + [Hyphen] + last
  }

  lemma HyphenJoinLetters(a: string, b: string)
    ensures Alnums(ToLower(a + [Hyphen] + b)) == Alnums(ToLower(a)) + Alnums(ToLower(b))
  {
    var la, lb := ToLower(a), ToLower(b);
    ToLowerAppend(a + [Hyphen], b);
    ToLowerAppend(a, [Hyphen]);
    assert ToLower([Hyphen]) == [Hyphen];
    assert ToLower(a + [Hyphen] + b) == la + [Hyphen] + lb;
    AlnumsAppend(la + [Hyphen], lb);
    AlnumsAppend(la, [Hyphen]);
    assert Alnums([Hyphen]) == [];
    assert Alnums(la + [Hyphen]) == Alnums(la);
  }

  /** The part before the separating hyphen. */
  function NamePart(rec: Record): (p: string)
    ensures p != [] && IsClean(p)
  {
    var n := SanitizeFilename(FullName(rec));
    if n == [] then ContactFallbackIsClean(); ContactFallback else n
  }

  /** The part after the separating hyphen. */
  function PhonePart(rec: Record, now: nat): (q: string)
    ensures q != [] && IsClean(q)
  {
    var m := SanitizeFilename(Phone(rec));
    if m == [] then NatToDecimal(now) else m
  }

  /**
   * The file name: `${namePart || 'contact'}-${mobilePart || Date.now()}.png`.
   * It is a clean stem of at least three characters (a name character, the
   * hyphen, a phone or timestamp character) followed by ".png".
   */
  function DeriveFilename(rec: Record, now: nat): (f: string)
    ensures |f| >= |PngExtension| + 3 && f[|f| - |PngExtension|..] == PngExtension
    ensures IsClean(f[..|f| - |PngExtension|])
  {
    var stem := NamePart(rec) + [Hyphen] + PhonePart(rec, now);
    JoinIsClean(NamePart(rec), PhonePart(rec, now));
    var f := stem + PngExtension;
    assert f[..|stem|] == stem && f[|stem|..] == PngExtension;
    f
  }

  /**
   * Every derived file name is a non-empty stem followed by ".png", and the
   * stem is already sanitised: sanitising it again changes nothing, so it
   * holds only [a-z0-9-], no doubled hyphen and no hyphen at either end.
   */
  lemma FilenameStemIsSanitized(rec: Record, now: nat)
    ensures var f := DeriveFilename(rec, now);
      |f| > |PngExtension| && f[|f| - |PngExtension|..] == PngExtension &&
      f[..|f| - |PngExtension|] != [] && SanitizeFilename(f[..|f| - |PngExtension|]) == f[..|f| - |PngExtension|]
  {
    var f := DeriveFilename(rec, now);
    CleanIsFixpoint(f[..|f| - |PngExtension|]);
  }

  lemma ContactFallbackIsClean()
    ensures IsClean(ContactFallback)
  {
    var s := ContactFallback;
    assert s[0] == 'c' && s[1] == 'o' && s[2] == 'n' && s[3] == 't' && s[4] == 'a' && s[5] == 'c' && s[6] == 't';
  }

  /** Two non-empty clean strings joined by one hyphen give a clean string. */
  lemma JoinIsClean(p: string, q: string)
    requires p != [] && IsClean(p) && q != [] && IsClean(q)
    ensures IsClean(p + [Hyphen] + q)
  {
    var s := p + [Hyphen] + q;
    forall i | 0 <= i < |s| ensures InAlphabet(s[i]) {
      if i < |p| { assert s[i] == p[i]; } else if i > |p| { assert s[i] == q[i - |p| - 1]; }
    }
    forall i | 0 < i < |s| ensures !(s[i - 1] == Hyphen && s[i] == Hyphen) {
      if i < |p| {
        assert s[i - 1] == p[i - 1] && s[i] == p[i];
      } else if i == |p| {
        assert s[i - 1] == p[|p| - 1];
      } else if i == |p| + 1 {
        assert s[i] == q[0];
      } else {
        assert s[i - 1] == q[i - |p| - 2] && s[i] == q[i - |p| - 1];
      }
    }
  }

  /**
   * The literal "contact" replaces the name exactly when the first and last
   * names hold no ASCII letter or digit; otherwise the name part keeps all of
   * their letters and digits, lower-cased, in order.
   */
  lemma NamePartFallback(rec: Record)
    ensures Alnums(ToLower(FullName(rec))) == [] ==> NamePart(rec) == ContactFallback
    ensures Alnums(ToLower(FullName(rec))) != [] ==>
      NamePart(rec) == SanitizeFilename(FullName(rec)) && DropHyphens(NamePart(rec)) == Alnums(ToLower(FullName(rec)))
  {
    SanitizeEmptyIff(FullName(rec));
    SanitizeKeepsAlnums(FullName(rec));
  }

  /** The timestamp is used exactly when the phone holds no ASCII letter or digit. */
  lemma PhonePartFallback(rec: Record, now: nat)
    ensures Alnums(ToLower(Phone(rec))) == [] ==> PhonePart(rec, now) == NatToDecimal(now)
    ensures Alnums(ToLower(Phone(rec))) != [] ==>
      PhonePart(rec, now) == SanitizeFilename(Phone(rec)) && DropHyphens(PhonePart(rec, now)) == Alnums(ToLower(Phone(rec)))
  {
    SanitizeEmptyIff(Phone(rec));
    SanitizeKeepsAlnums(Phone(rec));
  }

  /**
   * A row without any name or phone column is named after "unknown" and the
   * timestamp, never "contact": the first name's "unknown" fallback applies
   * before sanitising.
   */
  lemma NoNameNoPhone(rec: Record, now: nat)
    requires NoHit(rec, FirstNameKeys) && NoHit(rec, LastNameKeys) && NoHit(rec, PhoneKeys)
    ensures DeriveFilename(rec, now) == UnknownFirstName + "-" + NatToDecimal(now) + PngExtension
  {
    assert FullName(rec) == UnknownFirstName + [Hyphen];
    SanitizeCleanThenHyphen(UnknownFirstName);
    assert SanitizeFilename(Phone(rec)) == [];
  }

  /** A name of punctuation only ("!!" with no last name) falls back to "contact". */
  lemma PunctuationNameGivesContact(now: nat)
    ensures DeriveFilename(map["firstName" := "!!"], now) == ContactFallback + "-" + NatToDecimal(now) + PngExtension
  {
    var rec: Record := map["firstName" := "!!"];
    assert IsFirstHit(rec, FirstNameKeys, 0);
    assert NoHit(rec, LastNameKeys) && NoHit(rec, PhoneKeys);
    assert FullName(rec) == "!!-";
    assert Alnums(ToLower("!!-")) == [];
    NamePartFallback(rec);
    assert SanitizeFilename(Phone(rec)) == [];
  }

  /** When the phone yields a part, the timestamp has no influence on the name. */
  lemma ClockIrrelevantWithPhone(rec: Record, t1: nat, t2: nat)
    requires Alnums(ToLower(Phone(rec))) != []
    ensures DeriveFilename(rec, t1) == DeriveFilename(rec, t2)
  {
    PhonePartFallback(rec, t1);
    PhonePartFallback(rec, t2);
  }

  /** Without a usable phone, different timestamps give different names. */
  lemma ClockDistinguishesWithoutPhone(rec: Record, t1: nat, t2: nat)
    requires Alnums(ToLower(Phone(rec))) == [] && t1 != t2
    ensures DeriveFilename(rec, t1) != DeriveFilename(rec, t2)
  {
    PhonePartFallback(rec, t1);
    PhonePartFallback(rec, t2);
    NatToDecimalInjective(t1, t2);
    var n := NamePart(rec) + [Hyphen];
    var d1, d2 := NatToDecimal(t1), NatToDecimal(t2);
    assert DeriveFilename(rec, t1) == n + d1 + PngExtension;
    assert DeriveFilename(rec, t2) == n + d2 + PngExtension;
    if DeriveFilename(rec, t1) == DeriveFilename(rec, t2) {
      MiddleCancels(n, d1, d2, PngExtension);
    }
  }

  lemma MiddleCancels<T>(a: seq<T>, b: seq<T>, d: seq<T>, c: seq<T>)
    requires a + b + c == a + d + c
    ensures b == d
  {
    var x, y := a + b + c, a + d + c;
    assert |b| == |d|;
    assert b == x[|a|..|a| + |b|];
    assert d == y[|a|..|a| + |d|];
  }

  /**
   * Two rows whose resolved first name, last name and phone agree, with a
   * usable phone, get the same file name, so the second file overwrites the first.
   */
  lemma SameFieldsCollide(r1: Record, r2: Record, t1: nat, t2: nat)
    requires FileFirstName(r1) == FileFirstName(r2) && LastName(r1) == LastName(r2)
    requires Phone(r1) == Phone(r2) && Alnums(ToLower(Phone(r1))) != []
    ensures DeriveFilename(r1, t1) == DeriveFilename(r2, t2)
  {
    ClockIrrelevantWithPhone(r1, t1, t2);
  }

  /**
   * Jane Doe with a work phone: the name and phone are lower-cased, the "+"
   * disappears and the hyphens stay single.
   */
  lemma JaneDoeExample(now: nat)
    ensures DeriveFilename(JaneDoe(), now) == "jane-doe" + "-" + "1-555-0100" + ".png"
  {
    JaneDoeParts(now);
  }

  lemma JaneDoeParts(now: nat)
    ensures NamePart(JaneDoe()) == "jane-doe" && PhonePart(JaneDoe(), now) == "1-555-0100"
  {
    JaneDoeFields();
    JaneDoeName();
    PlusPhone();
  }

  function JaneDoe(): Record {
    map["firstName" := "Jane", "lastName" := "Doe", "email" := "jane@x.com", "workPhone" := "+1-555-0100"]
  }

  lemma JaneDoeFields()
    ensures FullName(JaneDoe()) == "Jane-Doe" && Phone(JaneDoe()) == "+1-555-0100"
  {
    JaneDoeCells();
    assert "Jane" + [Hyphen] + "Doe" == "Jane-Doe";
  }

  lemma JaneDoeCells()
    ensures FileFirstName(JaneDoe()) == "Jane" && LastName(JaneDoe()) == "Doe" && Phone(JaneDoe()) == "+1-555-0100"
  {
    var rec := JaneDoe();
    assert Cell(rec, "firstName") == "Jane";
    assert IsFirstHit(rec, LastNameKeys, 0) && IsFirstHit(rec, PhoneKeys, 0);
  }

  lemma JaneDoeName()
    ensures SanitizeFilename("Jane-Doe") == "jane-doe"
  {
    JaneLower();
    JaneDoeClean();
    SanitizeLowerClean("Jane-Doe", "jane-doe");
  }

  lemma JaneDoeClean()
    ensures IsClean("jane-doe")
  {
    var lower := "jane-doe";
    assert lower[0] == 'j' && lower[1] == 'a' && lower[2] == 'n' && lower[3] == 'e';
    assert lower[4] == '-' && lower[5] == 'd' && lower[6] == 'o' && lower[7] == 'e';
  }

  lemma JaneLower()
    ensures ToLower("Jane-Doe") == "jane-doe"
  {
    assert LowerChar('J') == 'j' && LowerChar('D') == 'd';
  }

  lemma PlusPhone()
    ensures SanitizeFilename("+1-555-0100") == "1-555-0100"
  {
    var digits := "1-555-0100";
    assert IsClean(digits) by {
      assert digits[0] == '1' && digits[1] == '-' && digits[2] == '5' && digits[3] == '5' && digits[4] == '5';
      assert digits[5] == '-' && digits[6] == '0' && digits[7] == '1' && digits[8] == '0' && digits[9] == '0';
    }
    assert "+1-555-0100" == ['+'] + digits;
    SanitizeJunkThenClean('+', digits);
  }
}
