# Address helpers of a wallet client, in Dafny

This project models the address and name helpers of the MetaMask mobile wallet
(`app/util/address/index.js`): the display formatters that abbreviate a
checksummed account address (`renderShortAddress`, `renderSlightlyLongAddress`,
`renderFullAddress`), the safe checksum wrapper (`safeToChecksumAddress`), the
identity resolver (`renderAccountName`), the ENS name validator (`isENS`), the
address shape test (`resemblesAddress`) and the prefix rule of the private-key
import (`importAccountFromPrivateKey`).

Modules:

- `JsString` (`js_string.dfy`): the JavaScript values the helpers take
  (`undefined`, `null`, a string) and their truthiness; `substr` as ECMAScript
  defines it (a negative start counts from the end, start and length are
  clamped, `substr(-0)` is `substr(0)`); `lastIndexOf`; ASCII `toLowerCase`.
- `Checksum` (`checksum.dfy`): the foreign encoder `toChecksumAddress` is a
  parameter `checksum: string -> string` of every helper that uses it. The
  facts EIP-55 (section "Specification") gives about it are predicates on that
  parameter. They are stated only for 20-byte addresses, `0x` and 40 hex
  digits, the input EIP-55 defines: the result is again such an address, only
  letter case changes, and it depends only on the lower-cased address. Lemmas
  take them as hypotheses; no formatter contract needs them.
- `AddressFormat` (`address_format.dfy`): the formatters, the safe checksum,
  the resolver and `resemblesAddress`. The identities object is an
  `Option<map<string, Identity>>`; the localized "details not available" text
  is a parameter `placeholder`.
- `EnsName` (`ens_name.dfy`): the domain pattern of `isENS` appears twice. It is
  a grammar over the split of the name at '.' (`InGrammar`: at least two parts,
  every part but the last a label, the last a label of two or more characters).
  It is also a finite-state scanner (`Run`, `MatchesEnsPattern`) that reads one
  character at a time. The two accept the same strings, and joining labels with
  '.' always gives a match. `isENS` combines the scanner's verdict on the
  normalised name with the slice check on the original name.
  `punycode.toASCII` and `tlc` are parameters.
- `KeyImport` (`key_import.dfy`): the keyring is a class that records every
  import request. The import method rebinds the key under the prefix rule and
  makes one request.

The identity map's keys must already be stored in checksummed form. The
resolver normalises only the address it looks up, never the keys.
`AccountNameIgnoresCase` shows that two casings of one address resolve alike
when the encoder depends only on the lower-cased address.

`isENS` checks the name twice, and both checks are kept as the code has them.
When the normaliser leaves the name unchanged, the slice check follows from
the pattern (`SliceCheckImpliedByPattern`). The checks can disagree when
`punycode.toASCII` turns an ideographic full stop (U+3002) into '.': the
pattern then matches but the original name has no '.', so the name is
rejected (`NoDotRejected` in general, `IdeographicStopRejected` for one such name).

Behaviour of the code worth noting, which the model keeps:

- The abbreviations are built with `substr`, which clamps. So with `chars`
  at or above the checksum's length, the result is the checksum, "...", the
  checksum again (`RenderShortAddress`).
- With `chars = 0`, the tail is the whole checksum.
- The suffix check of `isENS` tests only that `tlc` of the text after the last
  '.' is truthy.
- The key import forwards any string. Only a 66-character key with `0x` is
  changed, so the forwarded key is not always 64 hex characters.

## Model

| member | source | states |
|---|---|---|
| JsString.Substr | app/util/address/index.js:28 | `substr(start, length)` with a non-negative length is the `length` characters from the clamped start, never past the end; a negative start within the string counts back from the end, so it gives the `length` characters from `-start` before the end (all the last `-start` when `length` is at least that); a start before the beginning gives the first `length` characters; a start past the end or a non-positive length gives "" |
| JsString.SubstrFrom | app/util/address/index.js:28 | `substr(start)` with no length: a start in range gives the rest of the string; `-k` for `0 < k <= |s|` gives exactly the last `k` characters; 0 (so also -0) or a start before the beginning gives the whole string |
| JsString.LastIndexOf | app/util/address/index.js:88 | the result is -1 exactly when the character does not occur; otherwise it is a position holding it with no occurrence after it |
| JsString.ToLower | app/util/address/index.js:81 | `toLowerCase` keeps the length and folds each ASCII capital to its small letter in place, leaving every other character as it is |
| JsString.LastIndexOfLower | app/util/address/index.js:79-88 | lower-casing does not move the last '.', so the lower-cased and the original name agree on where it is |
| Checksum.CaseFactsGiveIdempotence | app/util/address/index.js:1 | on 20-byte addresses (`0x` and 40 hex digits), an encoder that returns an address, changes case only and depends only on the lower-cased address is idempotent |
| Checksum.LowerCaseMeetsFacts | app/util/address/index.js:1 | the EIP-55 facts the lemmas assume can all hold at once: lower-casing meets every one of them |
| AddressFormat.RenderFullAddress | app/util/address/index.js:13-15 | an absent or empty address gives the placeholder; any other address gives the encoder's output for it |
| AddressFormat.SafeToChecksumAddress | app/util/address/index.js:103-106 | the result is `undefined` exactly when the address is falsy; a truthy address gives the string the encoder returns for it |
| AddressFormat.Abbreviate | app/util/address/index.js:28-34 | the template `${substr(0, head)}...${substr(-chars)}` is the clamped head, "...", and a tail that is the last `chars` characters for positive `chars`, the whole string for 0, and the string without its first `-chars` characters for negative `chars` |
| AddressFormat.RenderShortAddress | app/util/address/index.js:25-29 | falsy input is returned unchanged; for any positive `chars` the result is the checksum's first `chars + 2` characters (all, if fewer), "...", its last `chars` (all, if fewer), so length `2 chars + 5` when `chars + 2` fits; `chars = 0` gives head, "...", the whole checksum; a negative `chars` gives a head of `chars + 2` characters clamped at 0, "...", the checksum without its first `-chars` characters |
| AddressFormat.RenderSlightlyLongAddress | app/util/address/index.js:31-35 | as the short form with a head of `chars + 20` characters, for every `chars` (length `2 chars + 23` when it fits) |
| AddressFormat.RenderAccountName | app/util/address/index.js:44-50 | an absent address gives `undefined`; a checksummed address that is a non-empty key of the given identities gives that entry's name; in every other case (no identities, no such key, or an encoder that returned "") the default short form of the checksummed address |
| AddressFormat.DefaultShortForm | app/util/address/index.js:25-28 | with 4 characters and a 42-character checksum: length 13, the first 6 characters of the checksum, "...", its last 4 |
| AddressFormat.DefaultSlightlyLongForm | app/util/address/index.js:31-34 | with 4 characters and a 42-character checksum: the checksum's characters 0-24, "...", 38-42; length 31 |
| AddressFormat.AbbreviationsAgree | app/util/address/index.js:25-34 | the short and slightly long forms start with the same prefix of the full address and end with the same suffix of it |
| AddressFormat.ResemblesAddress | app/util/address/index.js:99-101 | true exactly when the length is 42 = 2 + 20·2, whatever the characters (41 and 43 give false); every 20-byte address passes |
| AddressFormat.ChecksummedAddressResembles | app/util/address/index.js:99-105 | a 20-byte address and its checksummed form both pass `resemblesAddress` |
| AddressFormat.ResemblanceIgnoresCharacters | app/util/address/index.js:99-101 | the test is weaker than being an address: 42 letters 'z' pass it |
| AddressFormat.AddressShapedDisplayLengths | app/util/address/index.js:13-35 | a 20-byte address, under an encoder that returns addresses, displays as 42, 13 and 31 characters in the full, short and slightly long forms |
| AddressFormat.AccountNameFallback | app/util/address/index.js:44-50 | without a matching identity, the account name of a 20-byte address equals the short form of that address, given an idempotent encoder that returns addresses (the fallback checksums twice) |
| AddressFormat.AccountNameReadsOneEntry | app/util/address/index.js:46-47 | the result depends on the identities only through the entry under the checksummed address |
| AddressFormat.AccountNameIgnoresCase | app/util/address/index.js:45-47 | with an encoder that depends only on the lower-cased address, two casings of one 20-byte address resolve to the same name |
| EnsName.SplitPartsHaveNoDot | app/util/address/index.js:82-85 | no part of the split at '.' contains a '.' |
| EnsName.JoinDotsSplit | app/util/address/index.js:82-85 | joining the parts of the split with '.' gives the name back |
| EnsName.SplitJoinDots | app/util/address/index.js:82-85 | splitting parts joined with '.' gives the parts back, when no part contains '.' |
| EnsName.RunTracksSplit | app/util/address/index.js:85 | after any input the scanner is dead exactly when a finished part is not a label or the current part cannot become one; otherwise it records whether a '.' was seen, the current part's length and whether it ends with '-' |
| EnsName.MatchesEnsPattern | app/util/address/index.js:82-85 | the pattern match, decided by the scanner, accepts a string exactly when it is labels followed by '.', one or more times, then a top-level suffix of two or more characters |
| EnsName.DeadStaysDead | app/util/address/index.js:85 | once a prefix is rejected, every extension of it is rejected |
| EnsName.LiveScanAlphabet | app/util/address/index.js:83-85 | a string the scanner has not rejected uses only `[a-z0-9.-]`, and contains a '.' if the scanner saw one |
| EnsName.LabelsWithTldMatch | app/util/address/index.js:82-85 | one or more labels and a top-level suffix joined with '.' always match |
| EnsName.AcceptedNameShape | app/util/address/index.js:82-85 | every accepted string contains '.', uses only `[a-z0-9.-]`, and is the join of at least two parts, none empty or starting or ending with '-', the last of length at least 2 |
| EnsName.AcceptedNameStartsWithLabel | app/util/address/index.js:85 | an accepted string starts with a letter or digit, so its first '.' is not at index 0 |
| EnsName.TextAfterLastDot | app/util/address/index.js:87-89 | the text after the last '.' is the last part of the split; with no '.', the split is the whole name |
| EnsName.SplitWithoutDot | app/util/address/index.js:87-88 | a name without '.' splits into itself alone, so it has no suffix part |
| EnsName.SplitAfterLastDot | app/util/address/index.js:87-89 | the text after a '.' with no later '.' is the last part of the split |
| EnsName.SuffixCheck | app/util/address/index.js:87-89 | the slice check passes exactly when the last '.' is at index 1 or later and `tlc` of the text after it is non-empty; `substr(index + 1, length - 1)` is that whole rest |
| EnsName.IsEns | app/util/address/index.js:76-91 | a falsy name is rejected; a name is accepted exactly when it is a string whose last '.' is at index 1 or later, `tlc` of the text after that '.' is non-empty, and the lower-cased normalised name matches the pattern |
| EnsName.IsEnsExactly | app/util/address/index.js:76-91 | if `tlc` maps only "" to "", a name is accepted exactly when its last '.' is at index 1 or later, is not its last character, and the lower-cased normalised name matches |
| EnsName.SliceCheckImpliedByPattern | app/util/address/index.js:79-90 | when normalisation leaves the name unchanged, acceptance is exactly the pattern match on the lower-cased name |
| EnsName.VitalikEthAccepted | app/util/address/index.js:76-91 | "vitalik.eth" and "Vitalik.ETH" are accepted when the normaliser leaves them unchanged |
| EnsName.LeadingHyphenRejected | app/util/address/index.js:83-85 | "-bad-.eth" is rejected: a label may not start with '-' |
| EnsName.NamesWithoutDotRejected | app/util/address/index.js:77-90 | "noTld", "", `null` and `undefined` are rejected whatever the collaborators return |
| EnsName.NoDotRejected | app/util/address/index.js:87-90 | any name without '.' is rejected, whatever the normaliser and `tlc` return |
| EnsName.IdeographicStopRejected | app/util/address/index.js:79-90 | for the one name "a\u3002bc" that a normaliser maps onto "a.bc": the pattern matches the normalised name, yet the name is rejected |
| KeyImport.Keyring.ImportAccountWithStrategy | app/util/address/index.js:67 | the service receives one more request, with the given strategy and arguments, after all earlier ones |
| KeyImport.NormalizePrivateKey | app/util/address/index.js:61-65 | a 66-character key starting with `0x` becomes the 64 characters after the prefix; any other key is unchanged |
| KeyImport.ImportAccountFromPrivateKey | app/util/address/index.js:59-68 | exactly one request is added, with strategy "privateKey" and a one-element list holding the normalised key, which is also returned |
| KeyImport.PrefixedAndBareKeysAgree | app/util/address/index.js:63-64 | a 64-character key reaches the service the same way with or without `0x` |
| KeyImport.NormalizeIdempotent | app/util/address/index.js:63-64 | normalising an already normalised key changes nothing |

## Left out

- app/components/Base/TabBar.js: a presentational component (theme colours, style sheets) with no logic.
- `toChecksumAddress` internals (Keccak-256 and the EIP-55 casing): a foreign library. It is a parameter here. Nothing is assumed about its output for strings that are not `0x` and 40 hex digits, and its failures on such input are not modelled.
- `punycode.toASCII`: a foreign library, so it is a parameter here. Its errors on invalid input are not modelled. `ToLower` folds ASCII letters only. That matches `toLowerCase` on `toASCII`'s output for names without '@', which is ASCII. `toASCII` passes the part before an '@' through unchanged, but a name with '@' never matches the pattern. It does not match `toLowerCase` on arbitrary non-ASCII output from the parameter.
- `tlc` from `../general`: its source is not part of this model. It is a parameter, and its result is tested only for being non-empty. Lemmas that need more assume, as the hypothesis `KeepsEmptiness`, that it returns "" exactly for "".
- `strings('transactions.tx_details_not_available')`: the localization lookup is the parameter `placeholder`.
- `Engine.context.KeyringController`: the model receives the keyring as an explicit argument, not from a process-wide accessor. The asynchronous call, the returned promise, secure storage and error propagation are left out. Only the request is recorded.
- Strings are sequences of characters, not UTF-16 code units. Positions in `substr` and `lastIndexOf` differ only for characters outside the Basic Multilingual Plane. Addresses are ASCII. The `isENS` slice check (last '.' at index 1 or later, a non-empty suffix) gives the same answer under either counting.
- Non-integer `chars` (fractions, `NaN`, numeric strings that `+ 2` would concatenate) and identity entries whose `name` is missing or not a string are not modelled.
- `address in identities` also finds keys inherited through JavaScript's prototype chain. The model uses plain map membership.
- Values that are neither strings nor `null`/`undefined` (numbers, objects) as addresses or keys are not modelled. `null` and `undefined` raise a TypeError in `resemblesAddress` and reject the promise of the asynchronous import. Other values are read through `.length` as the code does: a number is not address-shaped and is forwarded to the import unchanged, and any object whose `length` is 42 passes `resemblesAddress`.
