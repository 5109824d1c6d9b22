/**
 * How the vault hides a password: `base64.b64encode(pw.encode()).decode()`,
 * and how it shows one again: `base64.b64decode(enc.encode()).decode()`.
 * This is an encoding, not encryption: anyone who reads the file can undo it.
 */
module Secret {
  import opened Wrappers
  import Text
  import Utf8
  import Base64

  function EncodeSecret(pw: string): string
  {
    Base64.Encode(Utf8.Encode(pw))
  }

  /** `None` where Python raises (`binascii.Error` or `UnicodeDecodeError`). */
  function Reveal(enc: string): Option<string>
  {
    match Base64.Decode(enc)
    case None => None
    case Some(bytes) => Utf8.Decode(bytes)
  }

  /** Revealing an encoded password gives the password back. */
  lemma RevealEncode(pw: string)
    ensures Reveal(EncodeSecret(pw)) == Some(pw)
  {
    Base64.DecodeEncode(Utf8.Encode(pw));
    Utf8.DecodeEncode(pw);
  }

  /**
   * Two passwords are equal exactly when their encodings are: comparing the
   * encoded candidate with the stored encoding is comparing the passwords.
   */
  lemma EncodeSecretInjective(a: string, b: string)
    ensures EncodeSecret(a) == EncodeSecret(b) <==> a == b
  {
    if EncodeSecret(a) == EncodeSecret(b) {
      RevealEncode(a);
      RevealEncode(b);
    }
  }

  /** Encodings hold no field separator and no white space, so they survive the store file. */
  lemma EncodeSecretPlain(pw: string)
    ensures forall i :: 0 <= i < |EncodeSecret(pw)| ==>
      EncodeSecret(pw)[i] != ':' && !Text.IsSpace(EncodeSecret(pw)[i])
  {
    Base64.EncodeAlphabet(Utf8.Encode(pw));
  }
}
