/** Turning the `keys` array of a JWKS document into a dictionary from key ID
    to public key, as both validators do: entries are visited in document
    order, each successful entry is stored under its `kid` (a later entry
    overwrites an earlier one with the same `kid`), and the first entry that
    raises ends the loop, leaving the entries before it in the dictionary. */
module Jwks {
  import opened Externals

  /** The dictionary after the loop, and the exception that ended it early. */
  datatype Loaded = Loaded(keys: map<Kid, PublicKey>, failure: Option<Exception>)

  /** The loop as a left fold over the entries.  Every key ID it stores is
      that of an entry that decoded, and the exception it stops with is that
      of an entry that failed. */
  function Load(entries: seq<JwkEntry>): (r: Loaded)
    ensures forall kid | kid in r.keys :: exists i | 0 <= i < |entries| :: Names(entries[i], kid)
    ensures r.failure.Some? ==> exists i | 0 <= i < |entries| :: entries[i] == JwkFailure(r.failure.value)
    decreases |entries|
  {
    if entries == [] then Loaded(map[], None)
    else
      var n := |entries| - 1;
      var prior := Load(entries[..n]);
      assert forall i | 0 <= i < n :: entries[..n][i] == entries[i];
      if prior.failure.Some? then prior
      else match entries[|entries| - 1]
        case JwkFailure(e) => Loaded(prior.keys, Some(e))
        case Jwk(kid, key) => Loaded(prior.keys[kid := key], None)
  }

  predicate AllDecoded(entries: seq<JwkEntry>) {
    forall i | 0 <= i < |entries| :: entries[i].Jwk?
  }

  /** Entry `e` decoded and carries key ID `kid`. */
  predicate Names(e: JwkEntry, kid: Kid) {
    e.Jwk? && e.kid == kid
  }

  /** Entry `i` is the last entry of `entries` that carries its key ID. */
  predicate LastNaming(entries: seq<JwkEntry>, i: int)
    requires 0 <= i < |entries| && entries[i].Jwk?
  {
    forall j | i < j < |entries| :: !Names(entries[j], entries[i].kid)
  }

  /** The index of the first entry that raises. */
  function FirstFailure(entries: seq<JwkEntry>): (i: nat)
    requires !AllDecoded(entries)
    ensures i < |entries| && entries[i].JwkFailure?
    ensures AllDecoded(entries[..i])
  {
    if entries[0].JwkFailure? then 0
    else
      var i := FirstFailure(entries[1..]);
      assert entries[..i + 1] == entries[..1] + entries[1..][..i];
      i + 1
  }

  /** One more turn of the loop, when no entry has raised yet. */
  lemma LoadStep(entries: seq<JwkEntry>, i: nat)
    requires i < |entries| && Load(entries[..i]).failure.None?
    ensures Load(entries[..i + 1]) ==
      match entries[i]
      case JwkFailure(e) => Loaded(Load(entries[..i]).keys, Some(e))
      case Jwk(kid, key) => Loaded(Load(entries[..i]).keys[kid := key], None)
  {
    assert entries[..i + 1][..i] == entries[..i];
  }

  /** Once an entry has raised, the entries after it change nothing. */
  lemma {:induction false} LoadFailurePersists(entries: seq<JwkEntry>, n: nat)
    requires n <= |entries| && Load(entries[..n]).failure.Some?
    ensures Load(entries) == Load(entries[..n])
    decreases |entries|
  {
    if n < |entries| {
      var m := |entries| - 1;
      assert entries[..m][..n] == entries[..n];
      LoadFailurePersists(entries[..m], n);
    } else {
      assert entries[..n] == entries;
    }
  }

  /** When every entry decodes, the loop raises nothing and its dictionary is
      the previous one updated with the last entry. */
  lemma {:induction false} LoadDecodedStep(entries: seq<JwkEntry>)
    requires AllDecoded(entries)
    ensures Load(entries).failure.None?
    ensures entries != [] ==>
      Load(entries).keys == Load(entries[..|entries| - 1]).keys[entries[|entries| - 1].kid := entries[|entries| - 1].key]
    decreases |entries|
  {
    if entries != [] {
      var n := |entries| - 1;
      assert forall i | 0 <= i < n :: entries[..n][i] == entries[i];
      LoadDecodedStep(entries[..n]);
    }
  }

  /** When every entry decodes, the dictionary holds exactly the key IDs of
      the entries. */
  lemma {:induction false} LoadDecodedDomain(entries: seq<JwkEntry>)
    requires AllDecoded(entries)
    ensures forall kid :: kid in Load(entries).keys <==> exists i | 0 <= i < |entries| :: Names(entries[i], kid)
    decreases |entries|
  {
    if entries != [] {
      var n := |entries| - 1;
      var init := entries[..n];
      assert forall i | 0 <= i < n :: init[i] == entries[i];
      LoadDecodedStep(entries);
      LoadDecodedDomain(init);
      forall kid | kid in Load(entries).keys
        ensures exists i | 0 <= i < |entries| :: Names(entries[i], kid)
      {
        if kid != entries[n].kid {
          var i :| 0 <= i < n && Names(init[i], kid);
          assert Names(entries[i], kid);
        } else {
          assert Names(entries[n], kid);
        }
      }
    }
  }

  /** When every entry decodes, each key ID maps to the key of the last entry
      that carries it. */
  lemma {:induction false} LoadDecodedLastWins(entries: seq<JwkEntry>)
    requires AllDecoded(entries)
    ensures forall i | 0 <= i < |entries| && LastNaming(entries, i) ::
      entries[i].kid in Load(entries).keys && Load(entries).keys[entries[i].kid] == entries[i].key
    decreases |entries|
  {
    if entries != [] {
      var n := |entries| - 1;
      var init := entries[..n];
      assert forall i | 0 <= i < n :: init[i] == entries[i];
      LoadDecodedStep(entries);
      LoadDecodedLastWins(init);
      forall i | 0 <= i < |entries| && LastNaming(entries, i)
        ensures entries[i].kid in Load(entries).keys && Load(entries).keys[entries[i].kid] == entries[i].key
      {
        if i < n {
          assert !Names(entries[n], entries[i].kid);
          assert LastNaming(init, i);
        }
      }
    }
  }

  /** When every entry decodes, the loop raises nothing, the dictionary holds
      exactly the key IDs of the entries, and each key ID maps to the key of
      the last entry that carries it. */
  lemma LoadAllDecoded(entries: seq<JwkEntry>)
    requires AllDecoded(entries)
    ensures Load(entries).failure.None?
    ensures forall kid :: kid in Load(entries).keys <==> exists i | 0 <= i < |entries| :: Names(entries[i], kid)
    ensures forall i | 0 <= i < |entries| && LastNaming(entries, i) ::
      entries[i].kid in Load(entries).keys && Load(entries).keys[entries[i].kid] == entries[i].key
  {
    LoadDecodedStep(entries);
    LoadDecodedDomain(entries);
    LoadDecodedLastWins(entries);
  }

  /** When entry `i` is the first to raise, the loop reports its exception
      and the dictionary holds what entries 0..i-1 put there. */
  lemma LoadFirstFailure(entries: seq<JwkEntry>, i: nat)
    requires i < |entries| && entries[i].JwkFailure? && AllDecoded(entries[..i])
    ensures Load(entries) == Loaded(Load(entries[..i]).keys, Some(entries[i].exc))
  {
    LoadAllDecoded(entries[..i]);
    LoadStep(entries, i);
    LoadFailurePersists(entries, i + 1);
  }

  /** The loop raises exactly when some entry does. */
  lemma LoadFailsIff(entries: seq<JwkEntry>)
    ensures Load(entries).failure.None? <==> AllDecoded(entries)
  {
    if AllDecoded(entries) {
      LoadAllDecoded(entries);
    } else {
      LoadFirstFailure(entries, FirstFailure(entries));
    }
  }
}
