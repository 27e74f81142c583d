/**
 * The `Map<String, EncryptedPubKey>` that the ceremony orchestrator fills with
 * one encrypted public key per element token. A Java map is a finite function
 * from keys to values that also has an iteration order; it is modelled as its
 * entries in iteration order, with no token twice. `ToMap` gives the finite
 * function, and the Java queries `containsKey`, `containsValue(null)`, `size`
 * and `values` are defined on the entries and proved to agree with it.
 */
module Contributions {
  import opened Wrappers
  import opened Messages

  /** One mapping of the Java map; `None` is a null value. */
  datatype Entry = Entry(token: Token, key: Option<EncryptedPubKey>)

  /** No token appears in two entries. */
  predicate DistinctTokens(m: seq<Entry>) {
    forall i, j :: 0 <= i < j < |m| ==> m[i].token != m[j].token
  }

  /** A Java map: its entries in iteration order, keys unique. */
  type ContributionMap = m: seq<Entry> | DistinctTokens(m) witness []

  /** The finite function a sequence of entries denotes (an earlier entry wins). */
  function ToMap(m: seq<Entry>): map<Token, Option<EncryptedPubKey>> {
    if m == [] then map[] else ToMap(m[1..])[m[0].token := m[0].key]
  }

  /** `containsKey(t)`. */
  function ContainsKey(m: seq<Entry>, t: Token): (b: bool)
    ensures b <==> t in ToMap(m)
    ensures b <==> exists i :: 0 <= i < |m| && m[i].token == t
  {
    if m == [] then false
    else if m[0].token == t then true
    else
      var b := ContainsKey(m[1..], t);
      assert b ==> exists i :: 0 <= i < |m| && m[i].token == t by {
        if b {
          var i :| 0 <= i < |m| - 1 && m[1..][i].token == t;
          assert m[i + 1].token == t;
        }
      }
      assert (exists i :: 0 <= i < |m| && m[i].token == t) ==> b by {
        if i :| 0 <= i < |m| && m[i].token == t {
          assert m[1..][i - 1].token == t;
        }
      }
      b
  }

  /** `containsValue(null)`. */
  function ContainsNull(m: seq<Entry>): (b: bool)
    requires DistinctTokens(m)
    ensures b <==> None in ToMap(m).Values
    ensures b <==> exists i :: 0 <= i < |m| && m[i].key == None
  {
    if m == [] then false
    else
      var rest := ContainsNull(m[1..]);
      var e := m[0];
      var mp := ToMap(m[1..]);
      HeadNotInTail(m);
      assert ToMap(m).Values == mp.Values + {e.key} by {
        forall v | v in ToMap(m).Values ensures v in mp.Values + {e.key} {
          var t :| t in ToMap(m) && ToMap(m)[t] == v;
          if t != e.token {
            assert mp[t] == v;
          }
        }
        forall v | v in mp.Values ensures v in ToMap(m).Values {
          var t :| t in mp && mp[t] == v;
          assert ToMap(m)[t] == v;
        }
        assert ToMap(m)[e.token] == e.key;
      }
      assert rest ==> exists i :: 0 <= i < |m| && m[i].key == None by {
        if rest {
          var i :| 0 <= i < |m| - 1 && m[1..][i].key == None;
          assert m[i + 1].key == None;
        }
      }
      assert (exists i :: 0 <= i < |m| && m[i].key == None) ==> e.key == None || rest by {
        if i :| 0 <= i < |m| && m[i].key == None {
          if i > 0 {
            assert m[1..][i - 1].key == None;
          }
        }
      }
      e.key == None || rest
  }

  /** `size()`: the number of mappings, which is the number of entries. */
  function Size(m: seq<Entry>): (n: nat)
    requires DistinctTokens(m)
    ensures n == |ToMap(m)| == |m|
  {
    if m == [] then 0
    else
      HeadNotInTail(m);
      1 + Size(m[1..])
  }

  /** `values()` once `containsValue(null)` is false: the keys, in iteration order. */
  function Values(m: seq<Entry>): (keys: seq<EncryptedPubKey>)
    requires forall i :: 0 <= i < |m| ==> m[i].key.Some?
    ensures |keys| == |m|
    ensures forall i :: 0 <= i < |m| ==> m[i].key == Some(keys[i])
  {
    if m == [] then [] else [m[0].key.value] + Values(m[1..])
  }

  /** The multiset of the non-null values of a finite function, independent of any order. */
  ghost function ValueBag(mp: map<Token, Option<EncryptedPubKey>>): multiset<EncryptedPubKey>
    decreases |mp|
  {
    if mp == map[] then multiset{}
    else
      var t :| t in mp;
      assert |mp - {t}| < |mp| by {
        assert (mp - {t}).Keys == mp.Keys - {t};
      }
      Bag(mp[t]) + ValueBag(mp - {t})
  }

  /** A value as a multiset: empty for a null. */
  function Bag(v: Option<EncryptedPubKey>): multiset<EncryptedPubKey> {
    match v
    case None => multiset{}
    case Some(k) => multiset{k}
  }

  /** Removing any one mapping takes exactly its value out of the bag. */
  lemma {:induction false} ValueBagRemove(mp: map<Token, Option<EncryptedPubKey>>, t: Token)
    requires t in mp
    ensures ValueBag(mp) == Bag(mp[t]) + ValueBag(mp - {t})
    decreases |mp|
  {
    var u :| u in mp && ValueBag(mp) == Bag(mp[u]) + ValueBag(mp - {u});
    if u != t {
      var withoutU, withoutT := mp - {u}, mp - {t};
      var both := withoutU - {t};
      assert withoutU.Keys == mp.Keys - {u};
      assert withoutT.Keys == mp.Keys - {t};
      assert both == withoutT - {u};
      ValueBagRemove(withoutU, t);
      ValueBagRemove(withoutT, u);
      var bt, bu, rest := Bag(mp[t]), Bag(mp[u]), ValueBag(both);
      assert ValueBag(withoutU) == bt + rest;
      assert ValueBag(withoutT) == bu + rest;
      calc {
        ValueBag(mp);
        bu + ValueBag(withoutU);
        bu + (bt + rest);
        bt + (bu + rest);
        bt + ValueBag(withoutT);
      }
    }
  }

  /** The keys of the entries, as a multiset, are the map's values: iteration order does not matter. */
  lemma {:induction false} ValuesAreValueBag(m: seq<Entry>)
    requires DistinctTokens(m)
    requires forall i :: 0 <= i < |m| ==> m[i].key.Some?
    ensures multiset(Values(m)) == ValueBag(ToMap(m))
  {
    if m != [] {
      var e, tail := m[0], m[1..];
      var whole, rest := ToMap(m), ToMap(tail);
      RemoveHead(m);
      assert e.token in whole && whole[e.token] == e.key;
      ValueBagRemove(whole, e.token);
      assert DistinctTokens(tail) && forall i :: 0 <= i < |tail| ==> tail[i].key.Some? by {
        forall i | 0 <= i < |tail| ensures tail[i] == m[i + 1] { }
      }
      ValuesAreValueBag(tail);
      assert Values(m) == [e.key.value] + Values(tail);
      calc {
        multiset(Values(m));
        multiset{e.key.value} + multiset(Values(tail));
        Bag(e.key) + ValueBag(rest);
        ValueBag(whole);
      }
    }
  }

  /** The first entry's token is not among the later entries'. */
  lemma HeadNotInTail(m: seq<Entry>)
    requires m != [] && DistinctTokens(m)
    ensures m[0].token !in ToMap(m[1..])
  {
    var tail := m[1..];
    forall i | 0 <= i < |tail| ensures tail[i].token != m[0].token {
      assert tail[i] == m[i + 1];
    }
    assert !ContainsKey(tail, m[0].token);
  }

  /** Dropping the first entry removes exactly its token from the finite function. */
  lemma RemoveHead(m: seq<Entry>)
    requires m != [] && DistinctTokens(m)
    ensures ToMap(m) - {m[0].token} == ToMap(m[1..])
  {
    HeadNotInTail(m);
  }

  /** Each entry is a mapping of the finite function: its token maps to its value. */
  lemma {:induction false} MapAtEntry(m: seq<Entry>, i: nat)
    requires DistinctTokens(m) && i < |m|
    ensures m[i].token in ToMap(m) && ToMap(m)[m[i].token] == m[i].key
  {
    if i > 0 {
      var tail := m[1..];
      assert DistinctTokens(tail) by {
        forall j | 0 <= j < |tail| ensures tail[j] == m[j + 1] { }
      }
      assert tail[i - 1] == m[i];
      MapAtEntry(tail, i - 1);
    }
  }
}
