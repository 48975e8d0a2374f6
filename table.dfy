/**
 * The capability table: the ordered list of reachable peers with the file and
 * token flags each last reported. Order matters, since token rotation walks it
 * front to back and moves the new holder to the tail.
 */
module CapabilityTable {
  import opened Wire

  /** One row: a peer's link address and its two reported flag bytes. */
  datatype Peer = Peer(address: Bytes, file: byte, token: byte)

  type Table = seq<Peer>

  /** No address occurs in two rows. */
  predicate UniqueAddresses(tb: Table)
  {
    forall i, j :: 0 <= i < j < |tb| ==> tb[i].address != tb[j].address
  }

  predicate Listed(tb: Table, address: Bytes)
  {
    exists i :: 0 <= i < |tb| && tb[i].address == address
  }

  /** Some row is exactly this peer with these flags. */
  predicate HasRow(tb: Table, address: Bytes, file: byte, token: byte)
  {
    exists i :: 0 <= i < |tb| && tb[i] == Peer(address, file, token)
  }

  /**
   * Record a status reply: every row with the address gets the new flags;
   * when there is none, a row is appended.
   */
  function Upsert(tb: Table, address: Bytes, file: byte, token: byte): Table
  {
    if Listed(tb, address) then
      seq(|tb|, i requires 0 <= i < |tb| =>
        if tb[i].address == address then Peer(address, file, token) else tb[i])
    else
      tb + [Peer(address, file, token)]
  }

  /**
   * Upsert leaves exactly one row for the address, with the new flags: an
   * existing row is updated where it stands and every other row is kept; an
   * unknown address is appended at the tail.
   */
  lemma UpsertSpec(tb: Table, address: Bytes, file: byte, token: byte)
    requires UniqueAddresses(tb)
    ensures UniqueAddresses(Upsert(tb, address, file, token))
    ensures HasRow(Upsert(tb, address, file, token), address, file, token)
    ensures forall i :: 0 <= i < |tb| && tb[i].address == address ==>
      |Upsert(tb, address, file, token)| == |tb| &&
      Upsert(tb, address, file, token)[i] == Peer(address, file, token) &&
      forall j :: 0 <= j < |tb| && j != i ==> Upsert(tb, address, file, token)[j] == tb[j]
    ensures !Listed(tb, address) ==> Upsert(tb, address, file, token) == tb + [Peer(address, file, token)]
  {
    var r := Upsert(tb, address, file, token);
    if Listed(tb, address) {
      var i :| 0 <= i < |tb| && tb[i].address == address;
      assert r[i] == Peer(address, file, token);
    } else {
      assert r[|tb|] == Peer(address, file, token);
    }
  }

  /** The upserted row is present, as a row value. */
  lemma UpsertShowsRow(tb: Table, address: Bytes, file: byte, token: byte)
    ensures Peer(address, file, token) in Upsert(tb, address, file, token)
  {
    var r := Upsert(tb, address, file, token);
    if Listed(tb, address) {
      var i :| 0 <= i < |tb| && tb[i].address == address;
      assert r[i] == Peer(address, file, token);
    } else {
      assert r[|tb|] == Peer(address, file, token);
    }
  }

  /** A row for another address survives an upsert unchanged. */
  lemma UpsertKeepsOthers(tb: Table, address: Bytes, file: byte, token: byte, row: Peer)
    requires row in tb && row.address != address
    ensures row in Upsert(tb, address, file, token)
  {
    var i :| 0 <= i < |tb| && tb[i] == row;
    assert Upsert(tb, address, file, token)[i] == row;
  }

  /** Every address listed before an upsert is listed after it, and nothing else but the new one. */
  lemma UpsertAddresses(tb: Table, address: Bytes, file: byte, token: byte, other: Bytes)
    ensures Listed(Upsert(tb, address, file, token), other) <==> Listed(tb, other) || other == address
  {
    var r := Upsert(tb, address, file, token);
    if Listed(tb, other) {
      var i :| 0 <= i < |tb| && tb[i].address == other;
      assert r[i].address == other;
    }
    if other == address {
      if Listed(tb, address) {
        var i :| 0 <= i < |tb| && tb[i].address == address;
        assert r[i].address == address;
      } else {
        assert r[|tb|].address == address;
      }
    }
    if Listed(r, other) {
      var i :| 0 <= i < |r| && r[i].address == other;
      if i < |tb| && tb[i].address != address {
        assert tb[i] == r[i];
      }
    }
  }

  /** Drop one row (eviction). */
  function Remove(tb: Table, i: nat): Table
    requires i < |tb|
  {
    tb[..i] + tb[i + 1..]
  }

  /** Move one row to the tail, keeping it as it was. */
  function MoveToTail(tb: Table, i: nat): Table
    requires i < |tb|
  {
    Remove(tb, i) + [tb[i]]
  }

  /** Eviction keeps the addresses unique and takes the evicted address out of the table. */
  lemma RemoveSpec(tb: Table, i: nat)
    requires i < |tb| && UniqueAddresses(tb)
    ensures UniqueAddresses(Remove(tb, i))
    ensures !Listed(Remove(tb, i), tb[i].address)
    ensures multiset(Remove(tb, i)) + multiset{tb[i]} == multiset(tb)
  {
    var r := Remove(tb, i);
    forall a, b | 0 <= a < b < |r|
      ensures r[a].address != r[b].address
    {
      var a' := if a < i then a else a + 1;
      var b' := if b < i then b else b + 1;
      assert r[a] == tb[a'] && r[b] == tb[b'];
    }
    forall k | 0 <= k < |r|
      ensures r[k].address != tb[i].address
    {
      var k' := if k < i then k else k + 1;
      assert r[k] == tb[k'];
    }
    assert tb == tb[..i] + [tb[i]] + tb[i + 1..];
  }

  /**
   * Moving a row to the tail is a permutation that keeps the addresses unique;
   * the moved row is last and every other row keeps its relative order.
   */
  lemma MoveToTailSpec(tb: Table, i: nat)
    requires i < |tb| && UniqueAddresses(tb)
    ensures UniqueAddresses(MoveToTail(tb, i))
    ensures multiset(MoveToTail(tb, i)) == multiset(tb)
    ensures |MoveToTail(tb, i)| == |tb| && MoveToTail(tb, i)[|tb| - 1] == tb[i]
    ensures MoveToTail(tb, i)[..|tb| - 1] == tb[..i] + tb[i + 1..]
  {
    var r := MoveToTail(tb, i);
    RemoveSpec(tb, i);
    forall a, b | 0 <= a < b < |r|
      ensures r[a].address != r[b].address
    {
      if b == |r| - 1 {
        assert r[a] in Remove(tb, i);
      } else {
        assert r[a] == Remove(tb, i)[a] && r[b] == Remove(tb, i)[b];
      }
    }
    assert r[..|tb| - 1] == Remove(tb, i);
  }
}
