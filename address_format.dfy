/**
 * Display formatting and name resolution for account addresses
 * (`renderFullAddress`, `renderShortAddress`, `renderSlightlyLongAddress`,
 * `renderAccountName`, `resemblesAddress`, `safeToChecksumAddress`).
 *
 * Every function takes the foreign checksum encoder as `checksum`; the
 * localized "details not available" text is the parameter `placeholder`.
 */
module AddressFormat {
  import opened JsString
  import opened Checksum

  /** Characters shown at each end when the caller gives no count. */
  const DEFAULT_CHARS := 4

  /** A value that may be absent, such as an identities object the caller did not pass. */
  datatype Option<T> = None | Some(value: T)

  /** An entry of the caller's identities object; only its name is read. */
  datatype Identity = Identity(name: string)

  /** `renderFullAddress`: the checksummed address, or the placeholder when the address is absent. */
  function RenderFullAddress(address: OptStr, checksum: string -> string, placeholder: string): (r: string)
    ensures !address.Truthy() ==> r == placeholder
    ensures address.Truthy() ==> r == checksum(address.value)
  {
    if address.Truthy() then checksum(address.value) else placeholder
  }

  /** `safeToChecksumAddress`: a falsy address becomes `undefined` instead of reaching the encoder. */
  function SafeToChecksumAddress(address: OptStr, checksum: string -> string): (r: OptStr)
    ensures r == Undefined <==> !address.Truthy()
    ensures address.Truthy() ==> r == Str(checksum(address.value))
  {
    if !address.Truthy() then Undefined else Str(checksum(address.value))
  }

  /** `n` clamped to `[0, size]`. */
  function Clamp(n: int, size: nat): (k: nat)
    ensures k <= size
  {
    if n < 0 then 0 else Min(n, size)
  }

  /**
   * The shape both abbreviated forms share: a head of `headLength` characters,
   * the literal "...", then a tail. A positive `chars` keeps the last `chars`
   * characters (all of them when there are fewer); 0 keeps everything, because
   * `substr(-0)` is `substr(0)`; a negative `chars` drops the first `-chars`.
   */
  function Abbreviate(cs: string, headLength: int, chars: int): (r: string)
    ensures r == cs[..Clamp(headLength, |cs|)] + "..."
                 + cs[(if chars > 0 then |cs| - Clamp(chars, |cs|) else Clamp(-chars, |cs|))..]
  {
    Substr(cs, 0, headLength) + "..." + SubstrFrom(cs, -chars)
  }

  /** `renderShortAddress`: falsy input comes back unchanged, anything else is checksummed and abbreviated. */
  function RenderShortAddress(address: OptStr, chars: int, checksum: string -> string): (r: OptStr)
    ensures !address.Truthy() ==> r == address
    ensures address.Truthy() ==> r.Str? && |r.value| >= 3
    ensures address.Truthy() && 0 < chars && chars + 2 <= |checksum(address.value)| ==>
      var cs := checksum(address.value);
      r.value == cs[..chars + 2] + "..." + cs[|cs| - chars..] && |r.value| == 2 * chars + 5
    ensures address.Truthy() && chars == 0 ==>
      var cs := checksum(address.value);
      r.value == cs[..Min(2, |cs|)] + "..." + cs
    ensures address.Truthy() && chars >= |checksum(address.value)| ==>
      var cs := checksum(address.value);
      r.value == cs + "..." + cs
    ensures address.Truthy() && 0 < chars ==>
      var cs := checksum(address.value);
      r.value == cs[..Min(chars + 2, |cs|)] + "..." + cs[|cs| - Min(chars, |cs|)..]
    ensures address.Truthy() && chars < 0 ==>
      var cs := checksum(address.value);
      r.value == cs[..Clamp(chars + 2, |cs|)] + "..." + cs[Min(-chars, |cs|)..]
  {
    if !address.Truthy() then address
    else Str(Abbreviate(checksum(address.value), chars + 2, chars))
  }

  /** `renderSlightlyLongAddress`: as the short form, with a head of `chars + 20` characters. */
  function RenderSlightlyLongAddress(address: OptStr, chars: int, checksum: string -> string): (r: OptStr)
    ensures !address.Truthy() ==> r == address
    ensures address.Truthy() ==> r.Str? && |r.value| >= 3
    ensures address.Truthy() && 0 < chars && chars + 20 <= |checksum(address.value)| ==>
      var cs := checksum(address.value);
      r.value == cs[..chars + 20] + "..." + cs[|cs| - chars..] && |r.value| == 2 * chars + 23
    ensures address.Truthy() && chars == 0 ==>
      var cs := checksum(address.value);
      r.value == cs[..Min(20, |cs|)] + "..." + cs
    ensures address.Truthy() && chars >= |checksum(address.value)| ==>
      var cs := checksum(address.value);
      r.value == cs + "..." + cs
    ensures address.Truthy() && 0 < chars ==>
      var cs := checksum(address.value);
      r.value == cs[..Min(chars + 20, |cs|)] + "..." + cs[|cs| - Min(chars, |cs|)..]
    ensures address.Truthy() && chars < 0 ==>
      var cs := checksum(address.value);
      r.value == cs[..Clamp(chars + 20, |cs|)] + "..." + cs[Min(-chars, |cs|)..]
  {
    if !address.Truthy() then address
    else Str(Abbreviate(checksum(address.value), chars + 20, chars))
  }

  /**
   * `renderAccountName`: the address is normalised through the safe checksum;
   * a known identity gives its name, anything else the default short form of
   * the normalised address (which the short form checksums once more).
   */
  function RenderAccountName(address: OptStr, identities: Option<map<string, Identity>>, checksum: string -> string): (r: OptStr)
    ensures !address.Truthy() ==> r == Undefined
    ensures address.Truthy() && identities.Some? && checksum(address.value) in identities.value
              && checksum(address.value) != "" ==>
      r == Str(identities.value[checksum(address.value)].name)
    ensures address.Truthy()
              && !(identities.Some? && checksum(address.value) != "" && checksum(address.value) in identities.value) ==>
      r == RenderShortAddress(Str(checksum(address.value)), DEFAULT_CHARS, checksum)
  {
    var normalised := SafeToChecksumAddress(address, checksum);
    if identities.Some? && normalised.Truthy() && normalised.value in identities.value then
      Str(identities.value[normalised.value].name)
    else
      RenderShortAddress(normalised, DEFAULT_CHARS, checksum)
  }

  /**
   * `resemblesAddress`: only the length is looked at, never the characters,
   * so every 20-byte address passes and so does any other 42-character string.
   */
  predicate ResemblesAddress(address: string): (r: bool)
    ensures r <==> |address| == 2 + 20 * 2
    ensures IsHexAddress(address) ==> r
  {
    |address| == ADDRESS_LENGTH
  }

  /** The checksummed form of a 20-byte address still resembles an address. */
  lemma {:induction false} ChecksummedAddressResembles(address: string, checksum: string -> string)
    requires IsHexAddress(address) && KeepsAddressForm(checksum)
    ensures ResemblesAddress(address) && ResemblesAddress(checksum(address))
  {
    assert IsHexAddress(checksum(address));
  }

  /** The shape test is weaker than being an address: 42 letters 'z' pass it. */
  lemma {:induction false} ResemblanceIgnoresCharacters()
    ensures var z := seq(ADDRESS_LENGTH, _ => 'z'); ResemblesAddress(z) && !IsHexAddress(z)
  {
    var z := seq(ADDRESS_LENGTH, _ => 'z');
    assert z[..2] != "0x" by {
      assert z[..2][1] == 'z';
    }
  }

  /** With the default four characters, a 42-character checksum shortens to its first 6 characters, "...", its last 4. */
  lemma {:induction false} DefaultShortForm(address: OptStr, checksum: string -> string)
    requires address.Truthy() && |checksum(address.value)| == ADDRESS_LENGTH
    ensures var cs, r := checksum(address.value), RenderShortAddress(address, DEFAULT_CHARS, checksum).value;
      |r| == 13 && r[..6] == cs[..6] && r[6..9] == "..." && r[9..] == cs[38..]
  {
  }

  /** With the default four characters, a 42-character checksum becomes its first 24, "...", its last 4. */
  lemma {:induction false} DefaultSlightlyLongForm(address: OptStr, checksum: string -> string)
    requires address.Truthy() && |checksum(address.value)| == ADDRESS_LENGTH
    ensures var cs, r := checksum(address.value), RenderSlightlyLongAddress(address, DEFAULT_CHARS, checksum).value;
      |r| == 31 && r == cs[0..24] + "..." + cs[38..42]
  {
  }

  /**
   * The two abbreviations of one address agree: the short head is a prefix of
   * the long head and both end with the same tail of the full checksummed form.
   */
  lemma {:induction false} AbbreviationsAgree(address: OptStr, chars: int, checksum: string -> string)
    requires address.Truthy() && 0 < chars && chars + 20 <= |checksum(address.value)|
    ensures var full := RenderFullAddress(address, checksum, "");
      var short, long := RenderShortAddress(address, chars, checksum).value, RenderSlightlyLongAddress(address, chars, checksum).value;
      && short[..chars + 2] == long[..chars + 2] == full[..chars + 2]
      && long[..chars + 20] == full[..chars + 20]
      && short[chars + 5..] == long[chars + 23..] == full[|full| - chars..]
  {
    var full := checksum(address.value);
    var short, long := RenderShortAddress(address, chars, checksum).value, RenderSlightlyLongAddress(address, chars, checksum).value;
    assert short == full[..chars + 2] + "..." + full[|full| - chars..];
    assert long == full[..chars + 20] + "..." + full[|full| - chars..];
    assert short[chars + 5..] == full[|full| - chars..];
    assert long[chars + 23..] == full[|full| - chars..];
  }

  /**
   * A 20-byte address is checksummed into another 42-character address, so its
   * display forms have the fixed lengths 42, 13 and 31.
   */
  lemma {:induction false} AddressShapedDisplayLengths(address: string, checksum: string -> string, placeholder: string)
    requires IsHexAddress(address) && KeepsAddressForm(checksum)
    ensures |RenderFullAddress(Str(address), checksum, placeholder)| == ADDRESS_LENGTH
    ensures |RenderShortAddress(Str(address), DEFAULT_CHARS, checksum).value| == 13
    ensures |RenderSlightlyLongAddress(Str(address), DEFAULT_CHARS, checksum).value| == 31
  {
    assert IsHexAddress(checksum(address));
    DefaultShortForm(Str(address), checksum);
    DefaultSlightlyLongForm(Str(address), checksum);
  }

  /**
   * Without a matching identity, the account name is the short form of the
   * address itself: the short form checksums the normalised address again,
   * which changes nothing for a 20-byte address when the encoder keeps the
   * address form and is idempotent.
   */
  lemma {:induction false} AccountNameFallback(address: string, identities: Option<map<string, Identity>>, checksum: string -> string)
    requires IsHexAddress(address) && KeepsAddressForm(checksum) && Idempotent(checksum)
    requires identities.None? || checksum(address) !in identities.value
    ensures RenderAccountName(Str(address), identities, checksum) == RenderShortAddress(Str(address), DEFAULT_CHARS, checksum)
  {
    var cs := checksum(address);
    assert IsHexAddress(cs) && checksum(cs) == cs;
  }

  /** The resolver reads only the entry stored under the normalised address. */
  lemma {:induction false} AccountNameReadsOneEntry(address: OptStr, identities: map<string, Identity>, checksum: string -> string)
    requires address.Truthy()
    ensures var key := checksum(address.value);
      RenderAccountName(address, Some(identities), checksum)
        == RenderAccountName(address, Some(map k | k in identities && k == key :: identities[k]), checksum)
  {
  }

  /**
   * With an encoder that depends only on the lower-cased address, two spellings
   * of one address that differ in case resolve to the same name.
   */
  lemma {:induction false} AccountNameIgnoresCase(a: string, b: string, identities: Option<map<string, Identity>>, checksum: string -> string)
    requires CaseInsensitive(checksum)
    requires IsHexAddress(a) && IsHexAddress(b) && ToLower(a) == ToLower(b)
    ensures RenderAccountName(Str(a), identities, checksum) == RenderAccountName(Str(b), identities, checksum)
  {
    assert checksum(a) == checksum(b);
  }
}
