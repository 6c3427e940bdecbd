/**
 * The `decrypt` helper of the credentials controller: a stored password is
 * the text `hexIV ":" hexCiphertext`. The record is split on ':', the first
 * piece is shifted off as the IV and the remaining pieces are joined again
 * with ':' to form the ciphertext. AES-256-CBC itself, the hex decoding and
 * the configured key are a foreign function that may throw.
 */
module SecretRecord {
  import opened Wrappers
  import opened JsText

  /**
   * `createDecipheriv("aes-256-cbc", key, iv)`, `update` and `final` under the
   * configured key, applied to the IV text and the ciphertext text; a thrown
   * error becomes `Failure` with the error's message.
   */
  type Decipher = (string, string) -> Result<string, string>

  /** An independent reading of the record format: cut at the first ':'. */
  function ParseRecord(text: string): (r: (string, string))
    ensures ':' !in r.0
    ensures ':' in text ==> text == r.0 + ":" + r.1
    ensures ':' !in text ==> r == (text, "")
  {
    if ':' in text then
      var i := IndexOf(text, ':');
      assert text == text[..i] + ":" + text[i + 1..];
      (text[..i], text[i + 1..])
    else
      (text, "")
  }

  /**
   * For a record `iv ":" rest` whose IV part has no colon, the shifted head is
   * exactly `iv` and re-joining the tail gives back `rest`, colons included.
   */
  lemma SplitShiftJoin(iv: string, rest: string)
    requires ':' !in iv
    ensures Split(iv + ":" + rest, ':')[0] == iv
    ensures Join(Split(iv + ":" + rest, ':')[1..], ':') == rest
  {
    SplitAtFirst(iv, rest, ':');
    JoinSplit(rest, ':');
    assert ([iv] + Split(rest, ':'))[1..] == Split(rest, ':');
  }

  /** The split/shift/join computation agrees with `ParseRecord` on every record. */
  lemma SplitShiftJoinParses(text: string)
    ensures Split(text, ':')[0] == ParseRecord(text).0
    ensures Join(Split(text, ':')[1..], ':') == ParseRecord(text).1
  {
    if ':' in text {
      var (iv, rest) := ParseRecord(text);
      SplitShiftJoin(iv, rest);
    } else {
      SplitWithoutSeparator(text, ':');
    }
  }

  /** `decrypt(text)`: the deciphered IV and ciphertext parts of the record. */
  method Decrypt(text: string, decipher: Decipher) returns (r: Result<string, string>)
    ensures r == decipher(ParseRecord(text).0, ParseRecord(text).1)
  {
    var textParts := Split(text, ':');
    var iv := textParts[0];
    textParts := textParts[1..];
    var encryptedText := Join(textParts, ':');
    SplitShiftJoinParses(text);
    r := decipher(iv, encryptedText);
  }
}
