# Cold-wallet creation in Subzero, modelled in Dafny

Subzero creates a threshold cold wallet offline, across several signing
elements. `ColdWalletCreator` has three static functions for the two offline
steps:

- `init` builds the InitWallet request for one element token.
- `combine` collects the elements' encrypted public keys into the FinalizeWallet
  request for one element. It checks three things first, in order.
- `finalize` reads the wallet's "xpub..." public key out of the finalize
  response.

All three are pure, so each one is modelled as a Dafny function that returns a
datatype. The lemmas about them state what the source promises.

Modules:

- `Bytes` (`bytes.dfy`): the `byte` type shared by the messages and the codec.
- `Wrappers` (`wrappers.dfy`): `Option`, where `None` stands for a Java `null`,
  and `Result`, where `Failure` stands for a thrown exception.
- `Utf8` (`utf8.dfy`): UTF-8 encoding and decoding of strings of Unicode scalar
  values, following section 3.9 of the Unicode Standard (Table 3-7). It proves
  that decoding inverts encoding, and that the decoder accepts exactly the
  encodings of strings.
- `Messages` (`messages.dfy`): the protobuf `CommandRequest` and
  `CommandResponse` as plain datatypes. Tokens are strings. Wallet ids are Java
  `int`s (`Int32`).
- `Contributions` (`contributions.dfy`): the `Map<String, EncryptedPubKey>`
  passed to `combine`. A Java map is a finite function that also has an
  iteration order. It is modelled as its entries in iteration order, with no
  token twice (`ContributionMap`). `ToMap` gives the finite function.
  `containsKey`, `containsValue(null)`, `size()` and `values()` are defined on
  the entries and proved to agree with `ToMap`. `ValueBag` is the multiset of a
  map's values, and it does not depend on any order.
- `ColdWalletCreator` (`cold_wallet_creator.dfy`): `Init`, `Combine`,
  `Finalize`, and the lemmas about them.

`ENCRYPTED_PUB_KEYS_MAX_COUNT` lives in a `Constants` class that is not part of
this model. `Combine` therefore takes it as the parameter `maxCount`, and no
value is assumed for it.

The keys in the finalize request are in the map's iteration order, as
`values()` returns them, not sorted by token. `Combine` states the payload up
to order; `CombineCarriesEveryKey` pins the order.

## Model

| member | source | states |
|---|---|---|
| ColdWalletCreator.Init | java/shared/src/main/java/com/squareup/subzero/shared/ColdWalletCreator.java:26-32 | The request carries the given token and wallet id, and its payload is the InitWallet variant. |
| ColdWalletCreator.InitCorrelates | java/shared/src/main/java/com/squareup/subzero/shared/ColdWalletCreator.java:18-31 | Documents the advice to call `init` once per token: requests for different tokens or wallet ids differ. It is a consequence of the stamping `Init` states, not a separate property of the code. |
| ColdWalletCreator.Combine | java/shared/src/main/java/com/squareup/subzero/shared/ColdWalletCreator.java:43-65 | Succeeds if and only if the element token is a key, no value is null, and the map has exactly `maxCount` mappings. On success the request carries `elementToken` and `walletId`, is a FinalizeWallet request, and its keys form the same multiset as the map's values. |
| ColdWalletCreator.CombineMissingToken | java/shared/src/main/java/com/squareup/subzero/shared/ColdWalletCreator.java:45-47 | If the element token is not a key, the result is the correlation error naming that token, whatever the map's size or null values. |
| ColdWalletCreator.CombineNullValue | java/shared/src/main/java/com/squareup/subzero/shared/ColdWalletCreator.java:49-51 | If the token is present and some value is null, the result is the null-value error, even when the size is right. |
| ColdWalletCreator.CombineArity | java/shared/src/main/java/com/squareup/subzero/shared/ColdWalletCreator.java:53-57 | If the token is present and no value is null, the arity error (expected count, actual size) happens exactly when the size differs from `maxCount`, for too few and for too many. |
| ColdWalletCreator.CombineCarriesEveryKey | java/shared/src/main/java/com/squareup/subzero/shared/ColdWalletCreator.java:59-64 | On success the request holds exactly `maxCount` keys. The i-th key is the value of the i-th mapping in iteration order, and every value of the map is among the keys. |
| ColdWalletCreator.CombineOrderIrrelevant | java/shared/src/main/java/com/squareup/subzero/shared/ColdWalletCreator.java:59-64 | Two iteration orders of the same map give the same error, or both succeed with the same token and wallet id and with keys that are permutations of each other. |
| ColdWalletCreator.ScenarioThreeElements | java/shared/src/main/java/com/squareup/subzero/shared/ColdWalletCreator.java:43-65 | With threshold 3, the map a, b, c and element "b", combine returns the finalize request for "b" and wallet 42 with the keys of a, b and c in that order. |
| ColdWalletCreator.ScenarioNullValue | java/shared/src/main/java/com/squareup/subzero/shared/ColdWalletCreator.java:49-51 | With threshold 2, the map {a: key, b: null} and element "a", combine reports the null value. |
| ColdWalletCreator.ScenarioNullBeforeArity | java/shared/src/main/java/com/squareup/subzero/shared/ColdWalletCreator.java:49-57 | With threshold 3, the map {a: key, b: null} and element "a", the size is wrong too, and combine reports the null value and not the size. |
| ColdWalletCreator.ScenarioMissingTokenFirst | java/shared/src/main/java/com/squareup/subzero/shared/ColdWalletCreator.java:45-57 | With threshold 3, the map {a: key} and element "z", combine reports the missing token and not the size. |
| ColdWalletCreator.Finalize | java/shared/src/main/java/com/squareup/subzero/shared/ColdWalletCreator.java:73-78 | A decoded public key encodes back to the response's public-key bytes. A response of another kind reads as the empty key, as the protobuf default instance does. |
| ColdWalletCreator.FinalizeRoundTrip | java/shared/src/main/java/com/squareup/subzero/shared/ColdWalletCreator.java:77 | For a finalize response whose public key is the UTF-8 encoding of a string S, finalize returns S. |
| ColdWalletCreator.FinalizeIff | java/shared/src/main/java/com/squareup/subzero/shared/ColdWalletCreator.java:77 | Finalize yields S from a finalize response if and only if the public key is the UTF-8 encoding of S. |
| Contributions.ContainsKey | java/shared/src/main/java/com/squareup/subzero/shared/ColdWalletCreator.java:45 | `containsKey(t)` holds exactly when t is a key of the map, and exactly when some entry carries t. |
| Contributions.ContainsNull | java/shared/src/main/java/com/squareup/subzero/shared/ColdWalletCreator.java:49 | `containsValue(null)` holds exactly when null is among the map's values, and exactly when some entry's value is null. |
| Contributions.Size | java/shared/src/main/java/com/squareup/subzero/shared/ColdWalletCreator.java:53 | `size()` is the number of mappings of the map, which is also its number of entries. |
| Contributions.Values | java/shared/src/main/java/com/squareup/subzero/shared/ColdWalletCreator.java:63 | `values()` of a map without nulls has one key per entry, and the i-th key is the i-th entry's value. |
| Contributions.ValuesAreValueBag | java/shared/src/main/java/com/squareup/subzero/shared/ColdWalletCreator.java:63 | As a multiset, `values()` equals the multiset of the map's values, so it does not depend on the iteration order. |
| Utf8.Decode | java/shared/src/main/java/com/squareup/subzero/shared/ColdWalletCreator.java:77 | Any string the decoder returns encodes back to the input bytes. |
| Utf8.DecodeEncode | java/shared/src/main/java/com/squareup/subzero/shared/ColdWalletCreator.java:77 | Decoding the UTF-8 encoding of any string gives that string back. |
| Utf8.DecodeIff | java/shared/src/main/java/com/squareup/subzero/shared/ColdWalletCreator.java:77 | The decoder returns S for bytes B if and only if B is the UTF-8 encoding of S. |

## Left out

- ColdWalletCreator.Finalize: on bytes that are not well-formed UTF-8, Java's `toStringUtf8` puts U+FFFD in place of each bad sequence. The model returns None there instead. Only well-formed input is modelled exactly.
- Utf8.Decode: returns None for malformed input instead of a string with replacement characters, for the same reason.
- Message text of the three exceptions: each error variant carries the data its message reports (the token, or the expected count and the actual size), but the formatted string is not built.
- Null strings: a null `token` or `elementToken`, and a null key in the map, are not modelled. Protobuf's `setToken(null)` throws before any request exists.
- Tokens holding unpaired UTF-16 surrogates: a token is a sequence of Unicode scalar values, so a Java String with a lone surrogate has no counterpart in the model.
- Maps whose `containsValue(null)` throws (maps that refuse null queries) are not modelled. The model follows a map that answers the query.
- Integer limits of `size()`: Java's `size()` saturates at `Integer.MAX_VALUE`. The model's size is unbounded.
- Protobuf builders and wire encoding: requests and responses are plain datatypes. `EncryptedPubKey` is an opaque byte string.
- Response kinds other than FinalizeWallet are one `OtherResponse` case. This is all `finalize` can tell apart.
- Checking that the finalize response really came from the HSM: the source leaves this as a future improvement and does not do it.
- Base58 decoding of the "xpub" string: the caller does this.
- Wallet-id uniqueness: the Subzero instance enforces it.
- The AES-GCM prototypes in `core/include/aes_gcm_ncipher.h`: they have no bodies and run on the HSM.
