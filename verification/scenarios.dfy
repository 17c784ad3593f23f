/** Worked examples of the read path on concrete secrets. */
module Scenarios {
  import opened Wrappers
  import opened Base64
  import opened VaultSecret

  /** The bytes of a string whose characters are all single octets. */
  function Ascii(s: string): (b: Bytes)
    requires forall i :: 0 <= i < |s| ==> s[i] as int < 256
    ensures |b| == |s|
    ensures forall i :: 0 <= i < |s| ==> b[i] == s[i] as int
  {
    seq(|s|, i requires 0 <= i < |s| => s[i] as int)
  }

  /** `base64:aGVsbG8=` decodes to `hello`. */
  lemma DecodeHello(partial: Bytes -> Bytes)
    ensures ResourceDecode(Ascii("base64:aGVsbG8="), partial) == Ascii("hello")
  {
    var raw := Ascii("base64:aGVsbG8=");
    assert raw[..7] == EncodedMarker;
    var enc := raw[7..];
    assert enc == [97, 71, 86, 115, 98, 71, 56, 61];
    assert WithoutNewlines(enc) == enc;
    assert enc[4..] == [98, 71, 56, 61];
    assert DecodeBlock(97, 71, 86, 115) == [104, 101, 108];
    assert Join(27, 6, 60, 0)[..2] == [108, 111];
    assert DecodeFinal(98, 71, 56, 61) == Some([108, 111]);
    assert DecodeQuanta(enc[4..]) == Some([108, 111]);
    assert [104, 101, 108] + [108, 111] == [104, 101, 108, 108, 111];
    assert Decode(enc) == Some([104, 101, 108, 108, 111]);
  }

  /** A value without the marker is exposed as fetched. */
  lemma PlainValueUnchanged(partial: Bytes -> Bytes)
    ensures ResourceDecode(Ascii("plain-value"), partial) == Ascii("plain-value")
  {
    assert Ascii("plain-value")[0] != EncodedMarker[0];
  }

  /** The remainder of the malformed example holds no line breaks for the decoder to skip. */
  lemma NoLineBreaks()
    ensures var enc := Ascii("not-valid-base64!!");
      forall i :: 0 <= i < |enc| ==> enc[i] != LF && enc[i] != CR
  {
    var enc := Ascii("not-valid-base64!!");
    assert enc == [110, 111, 116, 45, 118, 97, 108, 105, 100, 45, 98, 97, 115, 101, 54, 52, 33, 33];
  }

  /**
    A marked value that is not base64 is not an error: it becomes whatever
    the decoder produced before giving up.
  */
  lemma MalformedValueIsLenient(partial: Bytes -> Bytes)
    ensures ResourceDecode(Ascii("base64:not-valid-base64!!"), partial) == partial(Ascii("not-valid-base64!!"))
  {
    var raw := Ascii("base64:not-valid-base64!!");
    assert raw[..7] == EncodedMarker;
    var enc := raw[7..];
    assert enc == Ascii("not-valid-base64!!");
    NoLineBreaks();
    DecodeNeedsWholeQuanta(enc);
  }

  /** The `creds/db` secret read by `ReadCreds`. */
  function CredsData(): FieldMap {
    map["user" := Ascii("alice"), "password" := Ascii("base64:c2VjcmV0")]
  }

  /** The store read by `ReadCreds`: one secret, at `creds/db`. */
  function CredsStore(path: string): FetchResult {
    if path == "creds/db" then Found(CredsData()) else NotFound
  }

  /** `base64:c2VjcmV0` decodes to `secret`. */
  lemma DecodeSecret(partial: Bytes -> Bytes)
    ensures ResourceDecode(Ascii("base64:c2VjcmV0"), partial) == Ascii("secret")
  {
    var raw := Ascii("base64:c2VjcmV0");
    assert raw[..7] == EncodedMarker;
    var enc := raw[7..];
    assert enc == [99, 50, 86, 106, 99, 109, 86, 48];
    assert WithoutNewlines(enc) == enc;
    assert enc[4..] == [99, 109, 86, 48];
    assert DecodeBlock(99, 50, 86, 106) == [115, 101, 99];
    assert DecodeBlock(99, 109, 86, 48) == [114, 101, 116];
    assert DecodeQuanta(enc[4..]) == Some([114, 101, 116]);
    assert [115, 101, 99] + [114, 101, 116] == [115, 101, 99, 114, 101, 116];
  }

  /** The fields of the example secret, decoded. */
  lemma DecodeCreds(partial: Bytes -> Bytes)
    ensures DecodeFields(CredsData(), partial) == map["user" := Ascii("alice"), "password" := Ascii("secret")]
  {
    DecodeSecret(partial);
    assert Ascii("alice")[0] != EncodedMarker[0];
    assert ResourceDecode(Ascii("alice"), partial) == Ascii("alice");
  }

  /** `/creds/db` normalises to `creds/db`. */
  lemma TrimCreds()
    ensures TrimLeadingSlashes("/creds/db") == "creds/db"
  {
    TrimCharacterization("/creds/db", 1);
    assert "/creds/db"[1..] == "creds/db";
  }

  /** Reading `/creds/db` finds the `creds/db` secret and sets the ID `path:creds/db`. */
  lemma ReadCredsFound(partial: Bytes -> Bytes)
    ensures Read("/creds/db", CredsStore, partial) ==
      ReadState("path:creds/db", Success(DecodeFields(CredsData(), partial)))
  {
    TrimCreds();
    assert CredsStore("creds/db") == Found(CredsData());
    assert IdPrefix + "creds/db" == "path:creds/db";
  }

  /**
    Reading `/creds/db` normalises the path to `creds/db`, sets the ID
    `path:creds/db`, keeps the plain field and decodes the marked one.
  */
  lemma ReadCreds(partial: Bytes -> Bytes)
    ensures Read("/creds/db", CredsStore, partial) ==
      ReadState("path:creds/db", Success(map["user" := Ascii("alice"), "password" := Ascii("secret")]))
  {
    ReadCredsFound(partial);
    DecodeCreds(partial);
  }

  /** A store failure aborts the read: the error is passed on and no fields are stored, but the ID is set. */
  lemma ReadUnauthorized(partial: Bytes -> Bytes)
    ensures Read("/creds/db", _ => FetchError("unauthorized"), partial) ==
      ReadState("path:creds/db", Failure("unauthorized"))
  {
    TrimCreds();
  }
}
