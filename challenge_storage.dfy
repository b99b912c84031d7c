/**
 * The in-memory challenge store of the issuance service (`Storage`):
 * DNS identifier -> (token, challenge URL, key authorization).
 */
module ChallengeStorage {
  import opened Wrappers

  /** The tuple `(token, url, key_auth)` kept per identifier. */
  datatype Entry = Entry(token: string, url: string, keyAuthorization: string)

  class Storage {
    var orders: map<string, Entry>

    constructor ()
      ensures orders == map[]
    {
      orders := map[];
    }

    /** Stores the challenge of `identifier`, replacing an earlier one; other identifiers keep theirs. */
    method AddOrder(identifier: string, token: string, url: string, keyAuthorization: string)
      modifies this
      ensures orders == old(orders)[identifier := Entry(token, url, keyAuthorization)]
      ensures identifier in orders && orders[identifier] == Entry(token, url, keyAuthorization)
      ensures forall other :: other != identifier ==>
                (other in orders <==> other in old(orders)) &&
                (other in orders ==> orders[other] == old(orders)[other])
    {
      orders := orders[identifier := Entry(token, url, keyAuthorization)];
    }

    method GetOrders() returns (r: map<string, Entry>)
      ensures r == orders
    {
      r := orders;
    }

    /** The entries in some order, each once (`HashMap::iter`). */
    method Iter() returns (pairs: seq<(string, Entry)>)
      ensures IsEnumeration(pairs, orders)
    {
      var left := orders;
      pairs := [];
      while left != map[]
        invariant Walked(orders, left, pairs)
        decreases |left|
      {
        var key :| key in left;
        WalkStep(orders, left, pairs, key);
        pairs := pairs + [(key, left[key])];
        left := left - {key};
      }
      WalkDone(orders, pairs);
    }

    /** The entry stored for `order`, if any. */
    method GetOrder(order: string) returns (r: Option<Entry>)
      ensures r.Some? <==> order in orders
      ensures r.Some? ==> r.value == orders[order]
    {
      if order in orders {
        r := Some(orders[order]);
      } else {
        r := None;
      }
    }
  }

  /**
   * A store that received two entries for `identifier` hands back the
   * later one, and an entry for a different identifier is left as it was.
   */
  method LaterEntryWins(identifier: string, other: string, first: Entry, second: Entry, kept: Entry)
    returns (got: Option<Entry>, gotOther: Option<Entry>)
    requires other != identifier
    ensures got == Some(second)
    ensures gotOther == Some(kept)
  {
    var store := new Storage();
    store.AddOrder(other, kept.token, kept.url, kept.keyAuthorization);
    store.AddOrder(identifier, first.token, first.url, first.keyAuthorization);
    store.AddOrder(identifier, second.token, second.url, second.keyAuthorization);
    got := store.GetOrder(identifier);
    gotOther := store.GetOrder(other);
  }

  /** Keys appear at most once. */
  ghost predicate DistinctKeys(pairs: seq<(string, Entry)>)
  {
    forall i, j :: 0 <= i < j < |pairs| ==> pairs[i].0 != pairs[j].0
  }

  /** `pairs` lists every entry of `m` once, in some order (a `HashMap` walk). */
  ghost predicate IsEnumeration(pairs: seq<(string, Entry)>, m: map<string, Entry>)
  {
    DistinctKeys(pairs) &&
    (forall i :: 0 <= i < |pairs| ==> pairs[i].0 in m && m[pairs[i].0] == pairs[i].1) &&
    (forall k :: k in m ==> exists i :: 0 <= i < |pairs| && pairs[i].0 == k)
  }

  /**
   * Part way through walking `orders`: `pairs` lists the entries already
   * visited, once each, and `left` holds exactly the others.
   */
  ghost predicate Walked(orders: map<string, Entry>, left: map<string, Entry>, pairs: seq<(string, Entry)>)
  {
    && (forall k :: k in left ==> k in orders && left[k] == orders[k])
    && (forall i :: 0 <= i < |pairs| ==> pairs[i].0 in orders && orders[pairs[i].0] == pairs[i].1)
    && (forall i :: 0 <= i < |pairs| ==> pairs[i].0 !in left)
    && (forall k :: k in orders ==> k in left || exists i :: 0 <= i < |pairs| && pairs[i].0 == k)
    && DistinctKeys(pairs)
  }

  lemma WalkStep(orders: map<string, Entry>, left: map<string, Entry>, pairs: seq<(string, Entry)>, key: string)
    requires Walked(orders, left, pairs) && key in left
    ensures Walked(orders, left - {key}, pairs + [(key, left[key])])
    ensures |left - {key}| < |left|
  {
    var next := pairs + [(key, left[key])];
    assert (left - {key}).Keys == left.Keys - {key};
    forall k | k in orders ensures k in left - {key} || exists i :: 0 <= i < |next| && next[i].0 == k {
      if k == key {
        assert next[|pairs|].0 == k;
      } else if k !in left {
        var i :| 0 <= i < |pairs| && pairs[i].0 == k;
        assert next[i].0 == k;
      }
    }
  }

  lemma WalkDone(orders: map<string, Entry>, pairs: seq<(string, Entry)>)
    requires Walked(orders, map[], pairs)
    ensures IsEnumeration(pairs, orders)
  {
  }
}
