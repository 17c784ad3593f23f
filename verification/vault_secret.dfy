/**
  The read path of the `vault_secret` data source: it strips the leading
  slashes from the configured path, derives the resource ID from the result,
  reads the secret stored there, and exposes its fields with every
  `base64:`-marked value decoded.

  Field values are byte strings, since the decoded bytes are reinterpreted as
  a string without any validation. Paths and field names are character
  strings. The read against the secret store is the parameter `fetch`, and the
  bytes the base64 library hands back alongside its error on malformed input
  are the parameter `partial`.
*/
module VaultSecret {
  import opened Wrappers
  import opened Base64

  /** A field value: a string of bytes. */
  type Bytes = seq<byte>

  /** The `data` attribute: field names to field values. */
  type FieldMap = map<string, Bytes>

  /**
    What a read against the secret store yields: a failure (network,
    permission or server error), no secret at the path (a 404, which the
    store client reports as an absent secret rather than an error), or the
    secret's fields.
  */
  datatype FetchResult = FetchError(message: string) | NotFound | Found(data: FieldMap)

  /**
    What a read leaves behind: the resource ID, which is always set, and
    either the error that aborted the read or the `data` map it stored.
  */
  datatype ReadState = ReadState(id: string, outcome: Result<FieldMap, string>)

  /** The path separator. */
  const Slash: char := '/'

  /** The literal that starts every resource ID. */
  const IdPrefix: string := "path:"

  /** The marker of an encoded field value: the bytes of `base64:`. */
  const EncodedMarker: Bytes := [98, 97, 115, 101, 54, 52, 58]

  /** `n` slashes. */
  function Slashes(n: nat): (s: string)
    ensures |s| == n
    ensures forall i :: 0 <= i < n ==> s[i] == Slash
  {
    seq(n, _ => Slash)
  }

  // ---------------------------------------------------------------------
  // Path normalisation
  // ---------------------------------------------------------------------

  /**
    Removes the whole leading run of slashes, and nothing else: the result is
    a suffix of `path`, everything cut off is a slash, and the result does not
    start with one.
  */
  function TrimLeadingSlashes(path: string): (r: string)
    ensures |r| <= |path| && r == path[|path| - |r|..]
    ensures forall i :: 0 <= i < |path| - |r| ==> path[i] == Slash
    ensures r == [] || r[0] != Slash
    decreases |path|
  {
    if |path| > 0 && path[0] == Slash then TrimLeadingSlashes(path[1..]) else path
  }

  /** The path splits into a run of slashes followed by its normalised form. */
  lemma TrimSplitsPath(path: string)
    ensures var r := TrimLeadingSlashes(path); path == Slashes(|path| - |r|) + r
  {
    var r := TrimLeadingSlashes(path);
    assert path == path[..|path| - |r|] + r;
  }

  /**
    The normalised path is determined by where the leading run of slashes
    ends: if `path[..k]` is all slashes and `path[k]` is not a slash (or `k`
    is the end), the normalised path is `path[k..]`.
  */
  lemma TrimCharacterization(path: string, k: nat)
    requires k <= |path|
    requires forall i :: 0 <= i < k ==> path[i] == Slash
    requires k == |path| || path[k] != Slash
    ensures TrimLeadingSlashes(path) == path[k..]
  {
  }

  /** Normalising twice is the same as normalising once. */
  lemma TrimIdempotent(path: string)
    ensures TrimLeadingSlashes(TrimLeadingSlashes(path)) == TrimLeadingSlashes(path)
  {
    var r := TrimLeadingSlashes(path);
    TrimCharacterization(r, 0);
  }

  /** Any number of extra leading slashes normalise away. */
  lemma {:induction false} TrimIgnoresLeadingSlashes(n: nat, path: string)
    ensures TrimLeadingSlashes(Slashes(n) + path) == TrimLeadingSlashes(path)
    decreases n
  {
    if n > 0 {
      var s := Slashes(n) + path;
      assert s[1..] == Slashes(n - 1) + path;
      TrimIgnoresLeadingSlashes(n - 1, path);
    } else {
      assert Slashes(n) + path == path;
    }
  }

  /**
    Two paths normalise alike exactly when they differ only in how many
    slashes lead them.
  */
  lemma SameNormalFormIff(p: string, q: string)
    ensures TrimLeadingSlashes(p) == TrimLeadingSlashes(q) <==>
      exists m: nat, n: nat, t: string :: p == Slashes(m) + t && q == Slashes(n) + t
  {
    var rp, rq := TrimLeadingSlashes(p), TrimLeadingSlashes(q);
    TrimSplitsPath(p);
    TrimSplitsPath(q);
    if rp == rq {
      assert p == Slashes(|p| - |rp|) + rp && q == Slashes(|q| - |rq|) + rp;
    }
    if exists m: nat, n: nat, t: string :: p == Slashes(m) + t && q == Slashes(n) + t {
      var m: nat, n: nat, t: string :| p == Slashes(m) + t && q == Slashes(n) + t;
      TrimIgnoresLeadingSlashes(m, t);
      TrimIgnoresLeadingSlashes(n, t);
    }
  }

  // ---------------------------------------------------------------------
  // Field decoding
  // ---------------------------------------------------------------------

  /** Does the value carry the `base64:` marker? */
  predicate IsMarked(raw: Bytes) {
    EncodedMarker <= raw
  }

  /**
    Decodes one field value. A marked value has its remainder base64-decoded;
    a decoding failure is not reported, and the value becomes whatever bytes
    the decoder produced before it gave up. Any other value is kept as is.
  */
  function ResourceDecode(raw: Bytes, partial: Bytes -> Bytes): (r: Bytes)
    ensures !IsMarked(raw) ==> r == raw
    ensures IsMarked(raw) ==>
      var encoded := raw[|EncodedMarker|..];
      r == if Decode(encoded).Some? then Decode(encoded).value else partial(encoded)
  {
    if IsMarked(raw) then
      var encoded := raw[|EncodedMarker|..];
      match Decode(encoded)
      case Some(plain) => plain
      case None => partial(encoded)
    else raw
  }

  /** The marked encoding of any byte string decodes back to that byte string. */
  lemma ResourceDecodeRoundTrip(b: Bytes, partial: Bytes -> Bytes)
    ensures ResourceDecode(EncodedMarker + Encode(b), partial) == b
  {
    var raw := EncodedMarker + Encode(b);
    assert raw[..|EncodedMarker|] == EncodedMarker;
    assert raw[|EncodedMarker|..] == Encode(b);
    DecodeEncode(b);
  }

  /**
    On a value that is unmarked, or marked and well formed, the result does
    not depend on what the decoder returns for malformed input.
  */
  lemma ResourceDecodeIgnoresPartial(raw: Bytes, p1: Bytes -> Bytes, p2: Bytes -> Bytes)
    requires !IsMarked(raw) || Decode(raw[|EncodedMarker|..]).Some?
    ensures ResourceDecode(raw, p1) == ResourceDecode(raw, p2)
  {
  }

  /**
    Every field of the secret, with its value decoded: the same field names,
    and each value the decoding of the fetched value.
  */
  function DecodeFields(data: FieldMap, partial: Bytes -> Bytes): (r: FieldMap)
    ensures r.Keys == data.Keys && |r| == |data|
    ensures forall k :: k in r ==> r[k] == ResourceDecode(data[k], partial)
  {
    map k | k in data :: ResourceDecode(data[k], partial)
  }

  // ---------------------------------------------------------------------
  // The read
  // ---------------------------------------------------------------------

  /**
    Reads the secret at `path`. The ID is derived from the normalised path
    before the store is consulted, so it is set whatever the store answers;
    the store is asked for the normalised path; an error from it is passed on
    unchanged with no `data` stored; a missing secret yields an empty `data`
    map; a found secret yields its fields decoded.
  */
  function Read(path: string, fetch: string -> FetchResult, partial: Bytes -> Bytes): (st: ReadState)
    ensures st.id == IdPrefix + TrimLeadingSlashes(path)
    ensures st.outcome.Failure? <==> fetch(TrimLeadingSlashes(path)).FetchError?
    ensures fetch(TrimLeadingSlashes(path)).FetchError? ==>
      st.outcome.error == fetch(TrimLeadingSlashes(path)).message
    ensures fetch(TrimLeadingSlashes(path)).NotFound? ==> st.outcome == Success(map[])
    ensures fetch(TrimLeadingSlashes(path)).Found? ==>
      var data := fetch(TrimLeadingSlashes(path)).data;
      && st.outcome.Success?
      && st.outcome.value.Keys == data.Keys
      && forall k :: k in data ==> st.outcome.value[k] == ResourceDecode(data[k], partial)
  {
    var normalised := TrimLeadingSlashes(path);
    var id := IdPrefix + normalised;
    match fetch(normalised)
    case FetchError(message) => ReadState(id, Failure(message))
    case NotFound => ReadState(id, Success(map[]))
    case Found(data) => ReadState(id, Success(DecodeFields(data, partial)))
  }

  /** The ID does not depend on the store's answer: it is set even when the read fails. */
  lemma IdIndependentOfFetch(path: string, f1: string -> FetchResult, f2: string -> FetchResult,
                             p1: Bytes -> Bytes, p2: Bytes -> Bytes)
    ensures Read(path, f1, p1).id == Read(path, f2, p2).id
    ensures var id := Read(path, f1, p1).id; id[..|IdPrefix|] == IdPrefix && (|id| == |IdPrefix| || id[|IdPrefix|] != Slash)
  {
  }

  /** Two paths get the same ID exactly when they normalise alike. */
  lemma SameIdIff(p: string, q: string, fetch: string -> FetchResult, partial: Bytes -> Bytes)
    ensures Read(p, fetch, partial).id == Read(q, fetch, partial).id <==>
      TrimLeadingSlashes(p) == TrimLeadingSlashes(q)
  {
    var ip, iq := Read(p, fetch, partial).id, Read(q, fetch, partial).id;
    if ip == iq {
      assert ip[|IdPrefix|..] == TrimLeadingSlashes(p);
      assert iq[|IdPrefix|..] == TrimLeadingSlashes(q);
    }
  }

  /** The store is consulted only at the normalised path. */
  lemma ReadConsultsNormalisedPath(path: string, f1: string -> FetchResult, f2: string -> FetchResult,
                                   partial: Bytes -> Bytes)
    requires f1(TrimLeadingSlashes(path)) == f2(TrimLeadingSlashes(path))
    ensures Read(path, f1, partial) == Read(path, f2, partial)
  {
  }

  /**
    Leading slashes make no difference at all: `/foo`, `//foo` and `foo`
    give the same ID, the same store read and the same outcome.
  */
  lemma ReadIgnoresLeadingSlashes(n: nat, path: string, fetch: string -> FetchResult,
                                  partial: Bytes -> Bytes)
    ensures Read(Slashes(n) + path, fetch, partial) == Read(path, fetch, partial)
  {
    TrimIgnoresLeadingSlashes(n, path);
  }

  /** Every field value replaced by its marked base64 encoding. */
  function EncodeFields(plain: FieldMap): (r: FieldMap)
    ensures r.Keys == plain.Keys
    ensures forall k :: k in r ==> r[k] == EncodedMarker + Encode(plain[k])
  {
    map k | k in plain :: EncodedMarker + Encode(plain[k])
  }

  /** Decoding the fields of a secret written with EncodeFields gives back the plaintexts. */
  lemma DecodeFieldsRoundTrip(plain: FieldMap, partial: Bytes -> Bytes)
    ensures DecodeFields(EncodeFields(plain), partial) == plain
  {
    var out := DecodeFields(EncodeFields(plain), partial);
    forall k | k in plain
      ensures out[k] == plain[k]
    {
      ResourceDecodeRoundTrip(plain[k], partial);
    }
  }

  /**
    On a found secret whose values are all marked and well formed, the stored
    fields are exactly the plaintexts, whatever the decoder returns for
    malformed input.
  */
  lemma ReadFoundEncoded(path: string, fetch: string -> FetchResult, plain: FieldMap,
                         partial: Bytes -> Bytes)
    requires fetch(TrimLeadingSlashes(path)) == Found(EncodeFields(plain))
    ensures Read(path, fetch, partial).outcome == Success(plain)
  {
    DecodeFieldsRoundTrip(plain, partial);
  }
}
