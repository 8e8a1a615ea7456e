/** The password validation engine: the common-password dictionary with its
    lazy sort and binary-search lookup, the printable-ASCII sanitiser, the
    length rules, and the rule chain that reports the first failing rule. */
module Loader {
  import opened Utf8
  import opened ByteStrings

  const MinLength := 8
  const MaxLength := 64

  /** '*', which replaces every rune outside printable ASCII. */
  const Placeholder := 42

  /** The four rejections, in the order IsValid tries them. */
  datatype FailureKind = InvalidCharacters | TooLong | TooShort | TooCommon

  /** Go's error result: None is a nil error. */
  datatype Option<T> = None | Some(value: T)

  /** Printable ASCII: the space (32) through the tilde (126). */
  predicate Printable(r: int) {
    32 <= r <= 126
  }

  predicate AllPrintable(p: Bytes) {
    forall i :: 0 <= i < |p| ==> Printable(p[i])
  }

  predicate HasInvalid(rs: seq<int>) {
    exists i :: 0 <= i < |rs| && !Printable(rs[i])
  }

  /** The runes with every one outside printable ASCII replaced by '*': one
      printable rune per rune. */
  function Masked(rs: seq<int>): (ms: seq<int>)
    ensures |ms| == |rs|
    ensures forall i :: 0 <= i < |ms| ==> Printable(ms[i])
  {
    seq(|rs|, i requires 0 <= i < |rs| => if Printable(rs[i]) then rs[i] else Placeholder)
  }

  /** Masking changes the runes exactly when one of them is invalid. */
  lemma MaskedUnchangedIff(rs: seq<int>)
    ensures Masked(rs) == rs <==> !HasInvalid(rs)
  {
    if HasInvalid(rs) {
      var i :| 0 <= i < |rs| && !Printable(rs[i]);
      assert Masked(rs)[i] != rs[i];
    }
  }

  /** The string IsValid returns: the decoded runes, masked, encoded again. It
      is printable ASCII, has one byte per rune of the input, and decodes back
      to the masked runes. */
  function Sanitized(pass: Bytes): (s: Bytes)
    ensures AllPrintable(s)
    ensures |s| == RuneCount(pass)
    ensures Decode(s) == Masked(Decode(pass))
  {
    var ms := Masked(Decode(pass));
    EncodeAsciiRunes(ms);
    RuneCountIsDecodedLength(pass);
    DecodeAscii(ms);
    EncodeRunes(ms)
  }

  /** The error IsValid reports for pass against the entries common: the
      first rule that fails, tried in the order of the source. Stated on the
      raw bytes: a password passes exactly when all its bytes are printable
      ASCII, it has 8 to 64 of them, and it is not in the list. */
  function Verdict(pass: Bytes, common: seq<Bytes>): (v: Option<FailureKind>)
    ensures v == Some(InvalidCharacters) <==> !AllPrintable(pass)
    ensures v == Some(TooLong) <==> AllPrintable(pass) && |pass| > MaxLength
    ensures v == Some(TooShort) <==> AllPrintable(pass) && |pass| < MinLength
    ensures v == Some(TooCommon)
        <==> AllPrintable(pass) && MinLength <= |pass| <= MaxLength && pass in common
    ensures v == None
        <==> AllPrintable(pass) && MinLength <= |pass| <= MaxLength && pass !in common
  {
    NoInvalidIffAllPrintable(pass);
    var rs := Decode(pass);
    if HasInvalid(rs) then Some(InvalidCharacters)
    else
      PrintableIsUnchanged(pass);
      if |rs| > MaxLength then Some(TooLong)
      else if |rs| < MinLength then Some(TooShort)
      else if Sanitized(pass) in common then Some(TooCommon)
      else None
  }

  /** One more rune adds one masked rune at the end. */
  lemma MaskedAppend(rs: seq<int>, r: int)
    ensures Masked(rs + [r]) == Masked(rs) + [if Printable(r) then r else Placeholder]
  {
  }

  lemma HasInvalidAppend(rs: seq<int>, r: int)
    ensures HasInvalid(rs + [r]) <==> HasInvalid(rs) || !Printable(r)
  {
    if HasInvalid(rs + [r]) && !HasInvalid(rs) {
      var i :| 0 <= i < |rs| + 1 && !Printable((rs + [r])[i]);
      assert i == |rs|;
    }
    if !Printable(r) {
      assert !Printable((rs + [r])[|rs|]);
    }
    if HasInvalid(rs) {
      var i :| 0 <= i < |rs| && !Printable(rs[i]);
      assert !Printable((rs + [r])[i]);
    }
  }

  /** The invalid-character rule passes exactly when every BYTE is printable
      ASCII: a byte of 0x80 or above never starts a printable rune. */
  lemma {:induction false} NoInvalidIffAllPrintable(p: Bytes)
    ensures !HasInvalid(Decode(p)) <==> AllPrintable(p)
    decreases |p|
  {
    if |p| > 0 {
      var d := DecodeRune(p);
      var rest := p[d.width..];
      assert Decode(p) == [d.rune] + Decode(rest);
      NoInvalidIffAllPrintable(rest);
      if Printable(p[0]) {
        assert d == Decoded(p[0], 1);
        if HasInvalid(Decode(p)) {
          var i :| 0 <= i < |Decode(p)| && !Printable(Decode(p)[i]);
          assert !Printable(Decode(rest)[i - 1]);
        }
        if !AllPrintable(p) {
          var i :| 0 <= i < |p| && !Printable(p[i]);
          assert !Printable(rest[i - 1]);
        }
        if !AllPrintable(rest) {
          var i :| 0 <= i < |rest| && !Printable(rest[i]);
          assert !Printable(p[i + 1]);
        }
        if HasInvalid(Decode(rest)) {
          var i :| 0 <= i < |Decode(rest)| && !Printable(Decode(rest)[i]);
          assert !Printable(Decode(p)[i + 1]);
        }
      } else {
        assert !Printable(Decode(p)[0]);
      }
    }
  }

  /** Once the invalid-character rule passes, decoding is the identity, so the
      rune count is the byte length and sanitising changes nothing. */
  lemma PrintableIsUnchanged(p: Bytes)
    requires AllPrintable(p)
    ensures Decode(p) == p
    ensures RuneCount(p) == |p|
    ensures Sanitized(p) == p
  {
    DecodeAscii(p);
    RuneCountIsDecodedLength(p);
    assert Masked(p) == p;
    EncodeAsciiRunes(p);
  }

  /** The rune count is the number of decoded runes, and the byte length once
      every byte is printable. */
  lemma RuneCountFacts(p: Bytes)
    ensures RuneCount(p) == |Decode(p)|
    ensures AllPrintable(p) ==> RuneCount(p) == |p|
  {
    RuneCountIsDecodedLength(p);
    if AllPrintable(p) {
      PrintableIsUnchanged(p);
    }
  }

  /** What the sanitiser's output rune sequence satisfies. */
  lemma MaskedDecodeFacts(pass: Bytes)
    ensures HasInvalid(Decode(pass)) <==> !AllPrintable(pass)
    ensures |Masked(Decode(pass))| == RuneCount(pass)
    ensures !HasInvalid(Decode(pass)) ==> Masked(Decode(pass)) == pass
  {
    RuneCountIsDecodedLength(pass);
    NoInvalidIffAllPrintable(pass);
    MaskedUnchangedIff(Decode(pass));
    if AllPrintable(pass) {
      PrintableIsUnchanged(pass);
    }
  }

  /** The verdict depends on the entries of the list, not on their order, so
      the lazy sort cannot change an answer. */
  lemma VerdictIgnoresOrder(pass: Bytes, a: seq<Bytes>, b: seq<Bytes>)
    requires multiset(a) == multiset(b)
    ensures Verdict(pass, a) == Verdict(pass, b)
  {
    assert Sanitized(pass) in a <==> Sanitized(pass) in multiset(a);
  }

  /** The binary search hits exactly when the candidate is in the sorted list:
      the insertion index is in bounds and holds the candidate. */
  lemma SearchHitIffMember(s: seq<Bytes>, x: Bytes, idx: nat)
    requires Sorted(s) && idx <= |s|
    requires forall k :: 0 <= k < idx ==> Less(s[k], x)
    requires forall k :: idx <= k < |s| ==> !Less(s[k], x)
    ensures (idx < |s| && s[idx] == x) <==> x in s
  {
    if x in s {
      var k :| 0 <= k < |s| && s[k] == x;
      LessIrreflexive(x);
      assert idx <= k;
      if idx < k {
        assert !Less(s[k], s[idx]);
      }
      LessTotal(s[idx], x);
    }
  }

  /** The weak-password dictionary. Its one piece of state is the list of
      entries, which the first lookup sorts in place. */
  class CommonPasswords {
    var list: seq<Bytes>

    constructor (list: seq<Bytes>)
      ensures this.list == list
    {
      this.list := list;
    }

    /** Sorts the list ascending and returns the receiver. */
    method SortCommon() returns (self: CommonPasswords)
      modifies this
      ensures self == this
      ensures Sorted(list) && multiset(list) == multiset(old(list))
    {
      list := SortStrings(list);
      self := this;
    }

    /** Sorts the list if it is not sorted yet, then binary-searches it. */
    method IsCommon(pass: Bytes) returns (found: bool)
      modifies this
      ensures found <==> pass in old(list)
      ensures Sorted(list) && multiset(list) == multiset(old(list))
      ensures Sorted(old(list)) ==> list == old(list)
    {
      var sorted := StringsAreSorted(list);
      if !sorted {
        var _ := SortCommon();
      }
      var idx := SearchStrings(list, pass);
      found := |list| > idx && list[idx] == pass;
      SearchHitIffMember(list, pass, idx);
      assert pass in list <==> pass in multiset(list);
    }

    function IsUnderMinimumLength(pass: Bytes): (under: bool)
      ensures under <==> |Decode(pass)| < MinLength
      ensures AllPrintable(pass) ==> (under <==> |pass| < MinLength)
    {
      RuneCountFacts(pass);
      RuneCount(pass) < MinLength
    }

    function IsOverMaximumLength(pass: Bytes): (over: bool)
      ensures over <==> |Decode(pass)| > MaxLength
      ensures AllPrintable(pass) ==> (over <==> |pass| > MaxLength)
    {
      RuneCountFacts(pass);
      RuneCount(pass) > MaxLength
    }

    /** Decodes pass rune by rune, replacing each rune outside printable ASCII
        by '*'; the flag says whether any was replaced. */
    method ContainsInvalidAscii(pass: Bytes) returns (invalid: bool, runes: seq<int>)
      ensures runes == Masked(Decode(pass))
      ensures invalid <==> HasInvalid(Decode(pass))
      ensures invalid <==> !AllPrintable(pass)
      ensures |runes| == RuneCount(pass)
      ensures forall i :: 0 <= i < |runes| ==> Printable(runes[i])
      ensures !invalid ==> runes == pass
    {
      var rest := pass;
      invalid := false;
      runes := [];
      ghost var done: seq<int> := [];
      while |rest| > 0
        invariant Decode(pass) == done + Decode(rest)
        invariant runes == Masked(done)
        invariant invalid <==> HasInvalid(done)
        decreases |rest|
      {
        var d := DecodeRune(rest);
        assert Decode(rest) == [d.rune] + Decode(rest[d.width..]);
        if d.rune < 32 || d.rune > 126 {
          invalid := true;
          runes := runes + [Placeholder];
        } else {
          runes := runes + [d.rune];
        }
        MaskedAppend(done, d.rune);
        HasInvalidAppend(done, d.rune);
        done := done + [d.rune];
        rest := rest[d.width..];
      }
      assert rest == [] && Decode(rest) == [];
      assert done == Decode(pass);
      MaskedDecodeFacts(pass);
    }

    /** Runs the rules in order (invalid characters, too long, too short, too
        common) and always returns the sanitised password; the error is the
        first rule that failed, None when all pass. Only the common-password
        rule touches the list, through the lazy sort. */
    method IsValid(pass: Bytes) returns (passStr: Bytes, err: Option<FailureKind>)
      modifies this
      ensures passStr == Sanitized(pass)
      ensures err == Verdict(pass, old(list))
      ensures multiset(list) == multiset(old(list))
      ensures Sorted(old(list)) ==> list == old(list)
      ensures err in {None, Some(TooCommon)} ==> Sorted(list)
      ensures err in {Some(InvalidCharacters), Some(TooLong), Some(TooShort)} ==> list == old(list)
    {
      var invalid, runes := ContainsInvalidAscii(pass);
      passStr := EncodeRunes(runes);
      if invalid {
        return passStr, Some(InvalidCharacters);
      }
      if IsOverMaximumLength(pass) {
        return passStr, Some(TooLong);
      }
      if IsUnderMinimumLength(pass) {
        return passStr, Some(TooShort);
      }
      var common := IsCommon(passStr);
      if common {
        return passStr, Some(TooCommon);
      }
      return passStr, None;
    }
  }
}
