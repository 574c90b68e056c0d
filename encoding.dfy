/**
 * The collaborators the codec calls but whose code is not part of this model
 * (utils.Base64Encoding, utils.AddressEncoding.decode, utils.DateEncoding.decode
 * and the java.time formatters), gathered in one record of total functions
 * that every operation needing them takes as a parameter. What the model
 * assumes of them is the predicate Sound, stated where a property needs it.
 */
module Encoding {
  import opened Results
  import opened Strings
  import opened Dates

  /** The opening of an RFC 2047 encoded word, charset utf-8, "B" encoding. */
  const WordPrefix: string := "=?utf-8?B?"

  datatype Codec = Codec(
    encode: string -> string,                              // Base64Encoding.encode (a part body)
    decode: string -> string,                              // Base64Encoding.decode, taken never to throw
    encodeWord: string -> string,                          // Base64Encoding.encodeWord
    decodeWord: string -> string,                          // Base64Encoding.decodeWord, taken never to throw
    decodeAddresses: string -> Option<seq<seq<string>>>,   // AddressEncoding.decode, None when it throws
    decodeDate: string -> Option<ZonedDateTime>,           // DateEncoding.decode, None when it throws
    rfc1123: ZonedDateTime -> string,                      // DateTimeFormatter.RFC_1123_DATE_TIME
    isoOffset: ZonedDateTime -> string)                    // DateTimeFormatter.ISO_OFFSET_DATE_TIME

  /**
   * What the model assumes of the collaborators: Base64 (section 4 of RFC 4648)
   * round-trips and yields ASCII; an encoded word (section 4.1 of RFC 2047)
   * round-trips, is ASCII and opens with WordPrefix; RFC 1123 dates are ASCII.
   */
  ghost predicate Sound(c: Codec) {
    && (forall s :: c.decode(c.encode(s)) == s)
    && (forall s :: IsAscii(c.encode(s)))
    && (forall s :: c.decodeWord(c.encodeWord(s)) == s)
    && (forall s :: StartsWith(WordPrefix, c.encodeWord(s)) && IsAscii(c.encodeWord(s)))
    && (forall d :: IsAscii(c.rfc1123(d)))
  }
}
