/** The scenarios of loader/loader_test.go, written as client code whose
    assertions follow from the contracts of the Loader module alone. */
module LoaderScenarios {
  import opened Utf8
  import opened ByteStrings
  import opened Loader

  /** The bytes of an ASCII literal. */
  function Ascii(s: string): (b: Bytes)
    requires forall i :: 0 <= i < |s| ==> s[i] as int < 128
    ensures |b| == |s| && forall i :: 0 <= i < |s| ==> b[i] == s[i] as int
  {
    seq(|s|, i requires 0 <= i < |s| => s[i] as int)
  }

  /** "sort a short list": b, c, d, a becomes a, b, c, d. */
  method SortCommonExample() {
    var a, b, c, d := Ascii("a"), Ascii("b"), Ascii("c"), Ascii("d");
    var s := new CommonPasswords([b, c, d, a]);
    var r := s.SortCommon();
    var want := [a, b, c, d];
    assert Sorted(want) by {
      assert !Less(b, a) && !Less(c, b) && !Less(d, c);
      AdjacentSorted(want);
    }
    assert multiset(s.list) == multiset(want);
    SortedUnique(s.list, want);
    assert r.list == want;
  }

  /** "true if string is found"; a second lookup gives the same answer and
      leaves the sorted list alone. */
  method IsCommonFoundExample() {
    var how := Ascii("how");
    var entries := [Ascii("zxcd"), Ascii("reww"), Ascii("54what"), how];
    var s := new CommonPasswords(entries);
    var found := s.IsCommon(how);
    assert found;
    var sorted := s.list;
    var again := s.IsCommon(how);
    assert again && s.list == sorted;
  }

  /** "false if string is not found". */
  method IsCommonMissingExample() {
    var entries := [Ascii("zxcd"), Ascii("reww"), Ascii("54what"), Ascii("how")];
    var t := new CommonPasswords(entries);
    var missing := t.IsCommon(Ascii("123"));
    assert Ascii("123") !in entries by {
      assert Ascii("123")[0] == 49;
    }
    assert !missing;
  }

  /** The two length rules on "short", "justright" and 65 times 'l'. */
  method LengthExamples() {
    var s := new CommonPasswords([]);
    var short, justRight := Ascii("short"), Ascii("justright");
    var long: Bytes := seq(65, _ => 'l' as int);
    assert AllPrintable(short) && AllPrintable(justRight) && AllPrintable(long);
    assert s.IsUnderMinimumLength(short);
    assert !s.IsUnderMinimumLength(justRight);
    assert !s.IsOverMaximumLength(justRight);
    assert s.IsOverMaximumLength(long);
  }

  /** "short" passes the character rule unchanged. */
  method ContainsInvalidAsciiPrintableExample() {
    var s := new CommonPasswords([]);
    var short := Ascii("short");
    assert AllPrintable(short);
    var invalid, runes := s.ContainsInvalidAscii(short);
    assert !invalid && runes == short;
  }

  /** The two bytes of U+00A3 before "short" decode to one rune, replaced by a
      single '*'. */
  method ContainsInvalidAsciiPoundExample() {
    var s := new CommonPasswords([]);
    var short := Ascii("short");
    assert AllPrintable(short);
    PoundDecodes(short);
    var invalid, runes := s.ContainsInvalidAscii([0xC2, 0xA3] + short);
    assert invalid && runes == [Placeholder] + short;
  }

  /** "not valid when containing invalid ascii chars.": "*short" comes back. */
  method IsValidInvalidCharactersExample() {
    var s := new CommonPasswords([]);
    var short := Ascii("short");
    var pound := [0xC2, 0xA3] + short;
    var str, err := s.IsValid(pound);
    assert !Printable(pound[0]);
    assert err == Some(InvalidCharacters);
    PoundDecodes(short);
    var masked := [Placeholder] + short;
    EncodeAsciiRunes(masked);
    assert str == masked;
  }

  /** The runes of U+00A3 (as C2 A3) followed by printable ASCII, masked. */
  lemma PoundDecodes(short: Bytes)
    requires AllPrintable(short)
    ensures Masked(Decode([0xC2, 0xA3] + short)) == [Placeholder] + short
  {
    var pound := [0xC2, 0xA3] + short;
    assert DecodeRune(pound) == Decoded(0xA3, 2);
    assert pound[2..] == short;
    DecodeAscii(short);
    assert Decode(pound) == [0xA3] + short;
  }

  /** "not valid when password over 64 chars." */
  method IsValidTooLongExample() {
    var s := new CommonPasswords([]);
    var long: Bytes := seq(65, _ => 'l' as int);
    assert AllPrintable(long);
    PrintableIsUnchanged(long);
    var str, err := s.IsValid(long);
    assert str == long && err == Some(TooLong);
  }

  /** "not valid when password under 8 chars." */
  method IsValidTooShortExample() {
    var s := new CommonPasswords([]);
    var short := Ascii("short");
    assert AllPrintable(short);
    PrintableIsUnchanged(short);
    var str, err := s.IsValid(short);
    assert str == short && err == Some(TooShort);
  }

  /** "valid password." */
  method IsValidAcceptedExample() {
    var s := new CommonPasswords([]);
    var good := Ascii("zxlkas12s");
    assert AllPrintable(good);
    PrintableIsUnchanged(good);
    var str, err := s.IsValid(good);
    assert str == good && err == None;
  }

  /** "common password." */
  method IsValidTooCommonExample() {
    var password := Ascii("password");
    var s := new CommonPasswords([password]);
    assert AllPrintable(password);
    PrintableIsUnchanged(password);
    var str, err := s.IsValid(password);
    assert str == password && err == Some(TooCommon);
  }
}
