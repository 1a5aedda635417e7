/** The library code the hashers call and the model does not open:
    `MD5.ComputeHash` and `Encoding.UTF8`. They are given to the model as
    parameters, so no proof can depend on what they compute. Most proofs
    use only that they are functions (equal inputs give equal outputs);
    the memo round trip (`SaveLoadRoundTrip`, `SavedFileLoads`) takes as a
    hypothesis that decoding undoes encoding on the saved text. */
module Foreign {
  import opened Primitives

  datatype Crypto = Crypto(
    // `MD5.ComputeHash(bytes)`
    md5: Bytes -> Bytes,
    // `Encoding.UTF8.GetString(bytes)`, lossy for invalid sequences
    utf8Decode: Bytes -> string,
    // `Encoding.UTF8.GetBytes(text)`
    utf8Encode: string -> Bytes)
}
