/**
 * Creation of a new cold wallet in two offline steps. `Init` builds the
 * InitWallet request for one element token; `Combine` checks the collected
 * encrypted public keys and builds the FinalizeWallet request for one element;
 * `Finalize` reads the wallet's "xpub..." public key out of the finalize
 * response. All three are pure: they only read their arguments and build a
 * fresh value, and a failed check returns an error instead of a request.
 */
module ColdWalletCreator {
  import opened Wrappers
  import opened Bytes
  import opened Utf8
  import opened Messages
  import opened Contributions

  /** The three IllegalArgumentExceptions `combine` throws, with the data each message reports. */
  datatype CombineError =
    | CorrelationError(elementToken: Token)     // the element token is not a key of the map
    | NullValueError                            // the map holds a null value
    | ArityError(expected: int, actual: nat)    // the map's size is not the required count

  /** The InitWallet request for one element, stamped with its token and the wallet id. */
  function Init(token: Token, walletId: Int32): (r: CommandRequest)
    ensures r.token == token && r.walletId == walletId
    ensures r.payload.InitWallet?
  {
    CommandRequest(token, walletId, InitWallet)
  }

  /**
   * The FinalizeWallet request for the element `elementToken`, carrying every
   * collected encrypted public key; `maxCount` is the required number of
   * contributions (ENCRYPTED_PUB_KEYS_MAX_COUNT). The checks run in order:
   * the element token is a key, no value is null, the size is `maxCount`.
   */
  function Combine(contributions: ContributionMap, elementToken: Token, walletId: Int32, maxCount: int)
    : (r: Result<CommandRequest, CombineError>)
    ensures r.Success? <==>
      && elementToken in ToMap(contributions)
      && None !in ToMap(contributions).Values
      && |ToMap(contributions)| == maxCount
    ensures r.Success? ==>
      && r.value.token == elementToken
      && r.value.walletId == walletId
      && r.value.payload.FinalizeWallet?
      && multiset(r.value.payload.encryptedPubKeys) == ValueBag(ToMap(contributions))
  {
    if !ContainsKey(contributions, elementToken) then
      Failure(CorrelationError(elementToken))
    else if ContainsNull(contributions) then
      Failure(NullValueError)
    else if Size(contributions) != maxCount then
      Failure(ArityError(maxCount, Size(contributions)))
    else
      ValuesAreValueBag(contributions);
      Success(CommandRequest(elementToken, walletId, FinalizeWallet(Values(contributions))))
  }

  /**
   * The wallet's public key: the finalize response's public-key bytes decoded
   * as UTF-8. A response of another kind reads as the protobuf default
   * instance, whose public key is empty. None when the bytes are not
   * well-formed UTF-8.
   */
  function Finalize(response: CommandResponse): (r: Option<string>)
    ensures response.payload.OtherResponse? ==> r == Some([])
    ensures response.payload.FinalizeWalletResponse? && r.Some? ==> Encode(r.value) == response.payload.pubKey
  {
    match response.payload
    case FinalizeWalletResponse(pubKey) => Decode(pubKey)
    case OtherResponse => Decode([])
  }

  /**
   * Init may be called once per token: the requests for different tokens (or
   * wallet ids) differ, so each can be told apart. This follows from the
   * stamping `Init` promises.
   */
  lemma InitCorrelates(t1: Token, w1: Int32, t2: Token, w2: Int32)
    ensures Init(t1, w1) == Init(t2, w2) <==> t1 == t2 && w1 == w2
  {
  }

  /** A missing element token is reported first, whatever the map's size or null values. */
  lemma CombineMissingToken(contributions: ContributionMap, elementToken: Token, walletId: Int32, maxCount: int)
    requires elementToken !in ToMap(contributions)
    ensures Combine(contributions, elementToken, walletId, maxCount) == Failure(CorrelationError(elementToken))
  {
  }

  /** With the token present, a null value is reported before the size is looked at. */
  lemma CombineNullValue(contributions: ContributionMap, elementToken: Token, walletId: Int32, maxCount: int)
    requires elementToken in ToMap(contributions)
    requires None in ToMap(contributions).Values
    ensures Combine(contributions, elementToken, walletId, maxCount) == Failure(NullValueError)
  {
  }

  /** With the token present and no null, the arity error fires exactly when the size is wrong, too few or too many. */
  lemma CombineArity(contributions: ContributionMap, elementToken: Token, walletId: Int32, maxCount: int)
    requires elementToken in ToMap(contributions)
    requires None !in ToMap(contributions).Values
    ensures Combine(contributions, elementToken, walletId, maxCount) == Failure(ArityError(maxCount, |ToMap(contributions)|))
        <==> |ToMap(contributions)| != maxCount
  {
  }

  /**
   * A successful combine carries one key per element: exactly `maxCount` keys,
   * the i-th being the value of the i-th mapping in iteration order, and every
   * value of the map among them.
   */
  lemma CombineCarriesEveryKey(contributions: ContributionMap, elementToken: Token, walletId: Int32, maxCount: int)
    requires Combine(contributions, elementToken, walletId, maxCount).Success?
    ensures var keys := Combine(contributions, elementToken, walletId, maxCount).value.payload.encryptedPubKeys;
      && |keys| == maxCount
      && (forall i :: 0 <= i < |contributions| ==> contributions[i].key == Some(keys[i]))
      && (forall t :: t in ToMap(contributions) ==> ToMap(contributions)[t].Some? && ToMap(contributions)[t].value in keys)
  {
    var m := contributions;
    var r := Combine(m, elementToken, walletId, maxCount);
    assert ContainsKey(m, elementToken) && !ContainsNull(m) && Size(m) == maxCount;
    var keys := Values(m);
    assert r.value.payload.encryptedPubKeys == keys;
    forall t | t in ToMap(m) ensures ToMap(m)[t].Some? && ToMap(m)[t].value in keys {
      var i := EntryOf(m, t);
      assert keys[i] == ToMap(m)[t].value;
    }
  }

  /**
   * The outcome depends only on the map, not on its iteration order: two
   * orders of the same mappings fail alike, or both succeed with requests
   * whose keys are permutations of each other.
   */
  lemma CombineOrderIrrelevant(m1: ContributionMap, m2: ContributionMap, elementToken: Token, walletId: Int32, maxCount: int)
    requires ToMap(m1) == ToMap(m2)
    ensures var r1, r2 := Combine(m1, elementToken, walletId, maxCount), Combine(m2, elementToken, walletId, maxCount);
      && (r1.Failure? ==> r1 == r2)
      && (r1.Success? ==>
            && r2.Success?
            && r1.value.token == r2.value.token
            && r1.value.walletId == r2.value.walletId
            && multiset(r1.value.payload.encryptedPubKeys) == multiset(r2.value.payload.encryptedPubKeys))
  {
  }

  /** Finalize inverts the device's encoding: a public key that is the UTF-8 form of `s` reads back as `s`. */
  lemma {:induction false} FinalizeRoundTrip(token: Token, s: string)
    ensures Finalize(CommandResponse(token, FinalizeWalletResponse(Encode(s)))) == Some(s)
  {
    DecodeEncode(s);
  }

  /** Finalize yields `s` from a finalize response exactly when the public key is the encoding of `s`. */
  lemma FinalizeIff(token: Token, pubKey: seq<byte>, s: string)
    ensures Finalize(CommandResponse(token, FinalizeWalletResponse(pubKey))) == Some(s) <==> Encode(s) == pubKey
  {
    DecodeIff(pubKey, s);
  }

  /** Three elements, threshold three: the request for "b" carries the three keys in iteration order. */
  lemma ScenarioThreeElements(keyA: EncryptedPubKey, keyB: EncryptedPubKey, keyC: EncryptedPubKey)
    ensures Combine([Entry("a", Some(keyA)), Entry("b", Some(keyB)), Entry("c", Some(keyC))], "b", 42, 3)
         == Success(CommandRequest("b", 42, FinalizeWallet([keyA, keyB, keyC])))
  {
    var m: ContributionMap := [Entry("a", Some(keyA)), Entry("b", Some(keyB)), Entry("c", Some(keyC))];
    assert m[1].token == "b";
    assert ContainsKey(m, "b") && !ContainsNull(m) && Size(m) == 3;
    var keys := Values(m);
    assert keys == [keyA, keyB, keyC];
  }

  /** Two entries, one null, threshold two: the null value is reported. */
  lemma ScenarioNullValue(keyA: EncryptedPubKey)
    ensures Combine([Entry("a", Some(keyA)), Entry("b", None)], "a", 42, 2) == Failure(NullValueError)
  {
  }

  /** Two entries, one null, threshold three: the null value is reported, not the wrong size. */
  lemma ScenarioNullBeforeArity(keyA: EncryptedPubKey)
    ensures Combine([Entry("a", Some(keyA)), Entry("b", None)], "a", 42, 3) == Failure(NullValueError)
  {
  }

  /** A missing element token is reported even though the size is also wrong. */
  lemma ScenarioMissingTokenFirst(keyA: EncryptedPubKey)
    ensures Combine([Entry("a", Some(keyA))], "z", 42, 3) == Failure(CorrelationError("z"))
  {
  }

  /** The index of the entry that holds a token of the map. */
  lemma EntryOf(m: ContributionMap, t: Token) returns (i: nat)
    requires t in ToMap(m)
    ensures i < |m| && m[i].token == t && ToMap(m)[t] == m[i].key
  {
    assert ContainsKey(m, t);
    i :| 0 <= i < |m| && m[i].token == t;
    MapAtEntry(m, i);
  }
}
