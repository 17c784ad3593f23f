# vault_secret data source: a Dafny model

This project models the read path of the `vault_secret` data source of a
Terraform provider for HashiCorp Vault (`vault/datasource_vault_secret.go`).
A read takes the configured `path`, strips its leading slashes, sets the
resource ID to `path:` followed by the stripped path, reads the secret at
that path from Vault, and stores the secret's fields as the `data` map. A
field value that starts with `base64:` is stored base64-decoded; any other
value is stored as is.

Modules:

- `Wrappers` (`wrappers.dfy`): `Option` and `Result`.
- `Base64` (`base64.dfy`): the standard padded base64 encoding of section 4 of
  RFC 4648 and a decoder with the acceptance rules of Go's
  `base64.StdEncoding`. Line feeds and carriage returns are skipped.
  Padding is mandatory and nothing may follow it. The unused low bits of the
  last character before the padding are ignored. The encoder exists so that
  the round trip can be stated. The module proves it in both directions:
  decoding an encoding gives back the bytes, and a canonical,
  line-break-free string that decodes is the encoding of its decoding.
- `VaultSecret` (`vault_secret.dfy`): path normalisation
  (`TrimLeadingSlashes`), field decoding (`ResourceDecode`, `DecodeFields`)
  and the read itself (`Read`), with lemmas about each.
- `Scenarios` (`scenarios.dfy`): worked examples on concrete secrets.

Modelling choices:

- Field values are byte strings (`seq<byte>`), because line 75 turns the
  decoded bytes into a string without validating them. Paths and field names
  are character strings.
- The Vault read (`vault.Logical().Read`) is the parameter
  `fetch: string -> FetchResult`. `FetchResult` has three cases: an error, no
  secret (Vault's 404 comes back as a nil secret), or the secret's fields.
  Because `fetch` is a function, the lemmas can say which path is read.
- On malformed input Go's decoder returns an error, which line 74 discards,
  together with the bytes it decoded before failing. Those bytes depend on
  library internals, so they are the parameter `partial`. The model pins down
  the exact output only for well-formed input. Every lemma about well-formed
  input holds for every `partial`.
- `Read` returns a `ReadState`: the ID, which is always set, and either the
  store's error or the `data` map.
- A field value that is not a string makes `v.(string)` (line 62) panic.
  `FieldMap` holds only byte strings, so the case cannot arise.

## Model

| member | source | states |
|---|---|---|
| VaultSecret.TrimLeadingSlashes | vault/datasource_vault_secret.go:46 | The normalised path is a suffix of the input. Everything removed is a `/`. The result does not start with `/`. |
| VaultSecret.TrimSplitsPath | vault/datasource_vault_secret.go:46 | The input is a run of slashes followed by the normalised path, so inner and trailing slashes are untouched. |
| VaultSecret.TrimCharacterization | vault/datasource_vault_secret.go:46 | If the first `k` characters are slashes and the next is not (or `k` is the end), the normalised path is exactly what follows them. |
| VaultSecret.TrimIdempotent | vault/datasource_vault_secret.go:46 | Normalising twice gives the same result as normalising once. |
| VaultSecret.TrimIgnoresLeadingSlashes | vault/datasource_vault_secret.go:45-46 | Prefixing any number of slashes does not change the normalised path. |
| VaultSecret.SameNormalFormIff | vault/datasource_vault_secret.go:45-46 | Two paths normalise alike if and only if they differ only in their leading slashes. |
| VaultSecret.ResourceDecode | vault/datasource_vault_secret.go:71-78 | An unmarked value is returned unchanged. A marked value becomes the decoding of its remainder, or the decoder's partial output when the remainder is malformed. No error is ever signalled. |
| VaultSecret.ResourceDecodeRoundTrip | vault/datasource_vault_secret.go:72-75 | For every byte string `b`, decoding `base64:` followed by the standard encoding of `b` gives `b`. |
| VaultSecret.ResourceDecodeIgnoresPartial | vault/datasource_vault_secret.go:73-75 | On unmarked or well-formed input, the result does not depend on what the decoder returns for malformed input. |
| VaultSecret.DecodeFields | vault/datasource_vault_secret.go:57-64 | The stored map has exactly the secret's field names and the same number of entries. Each value is the decoding of the fetched value. |
| VaultSecret.DecodeFieldsRoundTrip | vault/datasource_vault_secret.go:60-64 | A secret whose every value is `base64:` plus an encoding is stored as the plaintexts. |
| VaultSecret.Read | vault/datasource_vault_secret.go:40-68 | The ID is `path:` plus the normalised path. The store is read at the normalised path. A store error is returned unchanged and no map is stored. A missing secret gives an empty map and no error. A found secret gives a map with its keys and decoded values. |
| VaultSecret.IdIndependentOfFetch | vault/datasource_vault_secret.go:48-54 | The ID is the same whatever the store answers, errors included. It starts with `path:`, and no `/` follows the prefix. |
| VaultSecret.SameIdIff | vault/datasource_vault_secret.go:46-49 | Two paths get the same ID if and only if they normalise alike. |
| VaultSecret.ReadConsultsNormalisedPath | vault/datasource_vault_secret.go:46-51 | Two stores that agree at the normalised path give the same read. |
| VaultSecret.ReadIgnoresLeadingSlashes | vault/datasource_vault_secret.go:45-51 | Paths such as `/foo`, `//foo` and `foo` give the same ID and the same outcome. |
| VaultSecret.ReadFoundEncoded | vault/datasource_vault_secret.go:56-66 | A found secret of well-formed marked values is stored as its plaintexts, whatever `partial` is. |
| Base64.Decode | vault/datasource_vault_secret.go:74 | On input without line breaks, `DecodeString` decodes the quanta as they stand. An accepted input never yields more than three bytes per four input characters, the size of the buffer the decoder allots. |
| Base64.DecodeSkipsLineBreak | vault/datasource_vault_secret.go:74 | `DecodeString` skips line breaks: removing a carriage return or line feed from anywhere in the input changes neither whether it decodes nor what it decodes to. |
| Base64.DecodeQuanta | vault/datasource_vault_secret.go:74 | Accepted input is a whole number of quanta. It decodes to between `3q - 2` and `3q` bytes, where `q` is the number of quanta. |
| Base64.DecodeNeedsWholeQuanta | vault/datasource_vault_secret.go:74 | Input without line breaks whose length is not a multiple of four is rejected. |
| Base64.DecodeEncode | vault/datasource_vault_secret.go:74 | Decoding the encoding of any byte string gives back that byte string (section 4 of RFC 4648). |
| Base64.EncodeDecodeQuanta | vault/datasource_vault_secret.go:74 | A canonical, line-break-free string that decodes is the encoding of its decoding. |
| Base64.EncodeIsCanonical | vault/datasource_vault_secret.go:74 | The encoder always leaves the hidden low bits of the last character zero. |
| Base64.EncodingImage | vault/datasource_vault_secret.go:74 | A line-break-free string is an encoding if and only if it decodes and is canonical. |
| Scenarios.DecodeHello | vault/datasource_vault_secret.go:71-78 | `base64:aGVsbG8=` is stored as `hello`. |
| Scenarios.PlainValueUnchanged | vault/datasource_vault_secret.go:72-77 | `plain-value` is stored unchanged. |
| Scenarios.MalformedValueIsLenient | vault/datasource_vault_secret.go:73-75 | `base64:not-valid-base64!!` is no error. It is stored as the decoder's partial output. |
| Scenarios.ReadCreds | vault/datasource_vault_secret.go:40-68 | Reading `/creds/db` sets ID `path:creds/db`. It keeps `user` = `alice` and decodes `password` to `secret`. |
| Scenarios.ReadUnauthorized | vault/datasource_vault_secret.go:49-54 | A store error `unauthorized` is returned as is, with no map stored and the ID still set. |

## Left out

- The schema declaration (lines 12-32) is framework configuration with no logic.
- `dataSourceServerCreate` and `dataSourceServerUpdate` (lines 35-37, 81-83) only call the read. `dataSourceServerDelete` (lines 86-89) only clears the ID through the framework.
- The Vault client and its network read (lines 41, 51) are I/O. They become the `fetch` parameter.
- The type assertions `m.(*vaultapi.Client)`, `d.Get("path").(string)` and `v.(string)` (lines 41, 43, 62) panic on other types. The model's types exclude those inputs.
- The bytes Go's decoder returns alongside its error on malformed input (line 74) depend on library internals. They are the `partial` parameter. The model states only that some byte string results and no error is raised.
- Go's `encoding/base64` is not modelled from its code. `Base64.Decode` follows the documented behaviour of `StdEncoding`: line breaks skipped, padding required, hidden bits ignored.
- The framework's bookkeeping for `d.SetId` and `d.Set` is left out. So is the ignored error of `d.Set` (line 66). The read's effect is its returned `ReadState`.
- `DecodeFields` builds the map in one comprehension instead of the loop at lines 61-63. Each key is written once, so Go's map iteration order cannot affect the result.
