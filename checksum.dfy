/**
 * The checksum encoder, `toChecksumAddress`, belongs to a foreign library and is
 * not modelled: every helper that uses it takes it as a parameter of type
 * `string -> string`. The predicates below are the facts EIP-55 (section
 * "Specification") guarantees about it; lemmas take them as hypotheses and no
 * formatter property depends on them.
 *
 * EIP-55 defines the encoding of a 20-byte address written as `0x` and 40 hex
 * digits, so each fact is stated only for such input. Nothing is assumed about
 * what the encoder does with any other string.
 */
module Checksum {
  import opened JsString

  /** Length of `0x` followed by 20 bytes in hex. */
  const ADDRESS_LENGTH := 2 + 20 * 2

  predicate HasHexPrefix(a: string) {
    |a| >= 2 && a[..2] == "0x"
  }

  predicate IsHexDigit(c: char) {
    '0' <= c <= '9' || 'a' <= c <= 'f' || 'A' <= c <= 'F'
  }

  /** A 20-byte address: `0x` and 40 hex digits of either case. */
  predicate IsHexAddress(a: string) {
    |a| == ADDRESS_LENGTH && HasHexPrefix(a) && forall i :: 2 <= i < |a| ==> IsHexDigit(a[i])
  }

  /** The checksummed form of an address is again an address: `0x` and 40 hex digits. */
  ghost predicate KeepsAddressForm(checksum: string -> string) {
    forall a :: IsHexAddress(a) ==> IsHexAddress(checksum(a))
  }

  /** Checksumming changes the case of letters and nothing else. */
  ghost predicate ChangesCaseOnly(checksum: string -> string) {
    forall a :: IsHexAddress(a) ==> ToLower(checksum(a)) == ToLower(a)
  }

  /** The result depends only on the lower-cased address. */
  ghost predicate CaseInsensitive(checksum: string -> string) {
    forall a, b :: IsHexAddress(a) && IsHexAddress(b) && ToLower(a) == ToLower(b) ==> checksum(a) == checksum(b)
  }

  /** Checksumming an already checksummed address gives it back. */
  ghost predicate Idempotent(checksum: string -> string) {
    forall a :: IsHexAddress(a) ==> checksum(checksum(a)) == checksum(a)
  }

  /**
   * The form and case facts give idempotence: the checksummed form is an
   * address that lower-cases to the input's lower-case form, so it is
   * checksummed the same way.
   */
  lemma {:induction false} CaseFactsGiveIdempotence(checksum: string -> string)
    requires KeepsAddressForm(checksum) && ChangesCaseOnly(checksum) && CaseInsensitive(checksum)
    ensures Idempotent(checksum)
  {
    forall a | IsHexAddress(a)
      ensures checksum(checksum(a)) == checksum(a)
    {
      var cs := checksum(a);
      assert IsHexAddress(cs) && ToLower(cs) == ToLower(a);
      assert checksum(cs) == checksum(a);
    }
  }

  /**
   * Lower-casing is one encoder that meets every fact above, so the hypotheses
   * the lemmas take can be met together.
   */
  lemma {:induction false} LowerCaseMeetsFacts()
    ensures KeepsAddressForm(ToLower) && ChangesCaseOnly(ToLower) && CaseInsensitive(ToLower) && Idempotent(ToLower)
  {
    forall a | IsHexAddress(a)
      ensures IsHexAddress(ToLower(a)) && ToLower(ToLower(a)) == ToLower(a)
    {
      var l := ToLower(a);
      assert l[..2] == "0x" by {
        assert l[0] == LowerChar(a[0]) && a[0] == "0x"[0];
        assert l[1] == LowerChar(a[1]) && a[1] == "0x"[1];
      }
      assert forall i :: 2 <= i < |l| ==> IsHexDigit(l[i]) by {
        assert forall i :: 2 <= i < |l| ==> l[i] == LowerChar(a[i]);
      }
    }
  }
}
