/**
 * Importing an account from a private key (`importAccountFromPrivateKey`):
 * the key loses a leading `0x` when it has exactly 66 characters, and is then
 * handed to the account-management service with the strategy "privateKey".
 */
module KeyImport {
  import opened JsString

  /** The strategy tag for raw private keys. */
  const PRIVATE_KEY_STRATEGY := "privateKey"

  /** Length of `0x` followed by 32 bytes in hex. */
  const PREFIXED_KEY_LENGTH := 66

  /** One call to the service's `importAccountWithStrategy`. */
  datatype ImportRequest = ImportRequest(strategy: string, args: seq<string>)

  /**
   * The account-management service, reduced to the requests it has received.
   * Storing the key and answering the request are not part of this model.
   */
  class Keyring {
    var requests: seq<ImportRequest>

    constructor ()
      ensures requests == []
    {
      requests := [];
    }

    method ImportAccountWithStrategy(strategy: string, args: seq<string>)
      modifies this
      ensures requests == old(requests) + [ImportRequest(strategy, args)]
    {
      requests := requests + [ImportRequest(strategy, args)];
    }
  }

  /**
   * The key the service receives: a 66-character key that starts with `0x`
   * loses those two characters; every other string is passed on as it is.
   */
  function NormalizePrivateKey(key: string): (r: string)
    ensures |key| == PREFIXED_KEY_LENGTH && key[..2] == "0x" ==> "0x" + r == key && |r| == 64
    ensures !(|key| == PREFIXED_KEY_LENGTH && key[..2] == "0x") ==> r == key
  {
    if |key| == PREFIXED_KEY_LENGTH && Substr(key, 0, 2) == "0x" then SubstrFrom(key, 2) else key
  }

  /**
   * `importAccountFromPrivateKey`: rebinds the key when it carries the prefix,
   * then makes exactly one import request with the normalised key alone.
   */
  method ImportAccountFromPrivateKey(keyring: Keyring, privateKey: string) returns (forwarded: string)
    modifies keyring
    ensures forwarded == NormalizePrivateKey(privateKey)
    ensures keyring.requests == old(keyring.requests) + [ImportRequest(PRIVATE_KEY_STRATEGY, [forwarded])]
  {
    var pkey := privateKey;
    if |pkey| == PREFIXED_KEY_LENGTH && Substr(pkey, 0, 2) == "0x" {
      pkey := SubstrFrom(pkey, 2);
    }
    keyring.ImportAccountWithStrategy(PRIVATE_KEY_STRATEGY, [pkey]);
    forwarded := pkey;
  }

  /** A 64-character key reaches the service the same way with or without `0x`. */
  lemma {:induction false} PrefixedAndBareKeysAgree(hex: string)
    requires |hex| == 64
    ensures NormalizePrivateKey("0x" + hex) == hex
    ensures NormalizePrivateKey(hex) == hex
  {
    assert ("0x" + hex)[..2] == "0x";
  }

  /** Normalising twice changes nothing more: a stripped key is too short to be stripped again. */
  lemma {:induction false} NormalizeIdempotent(key: string)
    ensures NormalizePrivateKey(NormalizePrivateKey(key)) == NormalizePrivateKey(key)
  {
  }
}
