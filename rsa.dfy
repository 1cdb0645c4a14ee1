/**
 * Node's `crypto.privateEncrypt` / `crypto.publicDecrypt` seen from the
 * licence library: an RSA primitive on byte strings, keyed by PEM text and
 * a passphrase, with an explicit padding scheme. The mathematics is not
 * modelled; a primitive is any pair of operations, and what the library
 * relies on is stated as the `MatchedPair` property of a key pair.
 */
module Rsa {
  import opened Wrappers

  /** The padding constants of `crypto.constants` that the two operations accept. */
  datatype Padding = NoPadding | Pkcs1Padding

  /** The padding the licence library uses on both sides. */
  const LICENSE_PADDING := Pkcs1Padding

  /**
   * `privateEncrypt(key, passphrase, padding, plaintext)` and
   * `publicDecrypt(key, passphrase, padding, ciphertext)`; `None` stands for
   * the exception Node throws (a wrong passphrase, a malformed key, a
   * plaintext too long for the modulus, a ciphertext the key does not open).
   */
  datatype Primitive = Primitive(
    privateEncrypt: (string, string, Padding, seq<byte>) -> Option<seq<byte>>,
    publicDecrypt: (string, string, Padding, seq<byte>) -> Option<seq<byte>>)

  /**
   * The public key (with any passphrase) opens, under `padding`, whatever
   * the private key unlocked by `passphrase` produced under the same padding.
   */
  ghost predicate MatchedPair(rsa: Primitive, privateKey: string, passphrase: string,
                              publicKey: string, padding: Padding)
  {
    forall m: seq<byte>, publicPassphrase: string ::
      rsa.privateEncrypt(privateKey, passphrase, padding, m).Some? ==>
        rsa.publicDecrypt(publicKey, publicPassphrase, padding, rsa.privateEncrypt(privateKey, passphrase, padding, m).value) == Some(m)
  }
}
