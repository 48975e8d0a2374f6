/**
 * Token rotation: the transmitter hands the token to the first row, in table
 * order, that has never held it (Token 0) and acknowledges the token frame;
 * failing that, to the first row that has held it (Token 1) and acknowledges.
 * The row that took the token is moved to the tail of the table.
 *
 * Whether a token send is acknowledged before its timeout is the radio's
 * doing; it reaches the model as one boolean per table row (every row is
 * tried at most once per rotation, since its Token byte puts it in at most
 * one tier).
 */
module TokenRotation {
  import opened Wire
  import opened Wrappers
  import opened CapabilityTable

  /** Tier A: rows that have never held the token. */
  const Fresh: byte := 0
  /** Tier B: rows that have held it. */
  const Held: byte := 1

  predicate HasTier(tb: Table, tier: byte)
  {
    exists i :: 0 <= i < |tb| && tb[i].token == tier
  }

  /** The first row at or after `from` in the tier whose token send is acknowledged. */
  function FirstAcked(tb: Table, acked: seq<bool>, tier: byte, from: nat): (r: Option<nat>)
    requires |acked| == |tb|
    ensures r.Some? ==> from <= r.value < |tb| && tb[r.value].token == tier && acked[r.value]
    ensures r.Some? ==> forall j :: from <= j < r.value && tb[j].token == tier ==> !acked[j]
    ensures r.None? ==> forall j :: from <= j < |tb| && tb[j].token == tier ==> !acked[j]
    decreases |tb| - from
  {
    if from >= |tb| then None
    else if tb[from].token == tier && acked[from] then Some(from)
    else FirstAcked(tb, acked, tier, from + 1)
  }

  /** The row that takes the token: Tier A first, when it has rows, then Tier B. */
  function Choose(tb: Table, acked: seq<bool>): Option<nat>
    requires |acked| == |tb|
  {
    var a := if HasTier(tb, Fresh) then FirstAcked(tb, acked, Fresh, 0) else None;
    if a.Some? then a else FirstAcked(tb, acked, Held, 0)
  }

  datatype Rotation = Rotation(passed: bool, table: Table)

  /**
   * The outcome of one rotation. The moved row is the row as it was before the
   * send: its Token byte is not changed on the way to the tail.
   */
  function Rotate(tb: Table, acked: seq<bool>): Rotation
    requires |acked| == |tb|
  {
    match Choose(tb, acked)
    case Some(i) => Rotation(true, MoveToTail(tb, i))
    case None => Rotation(false, tb)
  }

  /** Some row can take the token: it is in one of the two tiers and acknowledges. */
  predicate Reachable(tb: Table, acked: seq<bool>)
    requires |acked| == |tb|
  {
    exists i :: 0 <= i < |tb| && acked[i] && (tb[i].token == Fresh || tb[i].token == Held)
  }

  /**
   * The chosen row acknowledged and is in a tier; every Tier A row before it,
   * and every Tier A row at all when it is from Tier B, failed; every Tier B
   * row before a Tier B choice failed. No row is chosen exactly when no row of
   * either tier acknowledges, and values other than 0 and 1 are never chosen.
   */
  lemma ChooseSpec(tb: Table, acked: seq<bool>)
    requires |acked| == |tb|
    ensures Choose(tb, acked).Some? <==> Reachable(tb, acked)
    ensures Choose(tb, acked).Some? ==>
      var i := Choose(tb, acked).value;
      i < |tb| && acked[i] && (tb[i].token == Fresh || tb[i].token == Held) &&
      (tb[i].token == Fresh ==> forall j :: 0 <= j < i && tb[j].token == Fresh ==> !acked[j]) &&
      (tb[i].token == Held ==>
        (forall j :: 0 <= j < |tb| && tb[j].token == Fresh ==> !acked[j]) &&
        (forall j :: 0 <= j < i && tb[j].token == Held ==> !acked[j]))
  {
    var a := if HasTier(tb, Fresh) then FirstAcked(tb, acked, Fresh, 0) else None;
    if a.None? && !HasTier(tb, Fresh) {
      assert forall j :: 0 <= j < |tb| ==> tb[j].token != Fresh;
    }
  }

  /**
   * A rotation passes the token exactly when some row of either tier
   * acknowledges. A passed token moves the chosen row, unchanged, to the tail
   * and keeps every other row in its relative order; nothing is evicted, and
   * when the token is not passed the table is exactly as it was.
   */
  lemma RotateSpec(tb: Table, acked: seq<bool>)
    requires |acked| == |tb| && UniqueAddresses(tb)
    ensures Rotate(tb, acked).passed <==> Reachable(tb, acked)
    ensures !Rotate(tb, acked).passed ==> Rotate(tb, acked).table == tb
    ensures Rotate(tb, acked).passed ==>
      var i := Choose(tb, acked).value;
      var r := Rotate(tb, acked).table;
      i < |tb| && UniqueAddresses(r) && multiset(r) == multiset(tb) &&
      |r| == |tb| && r[|tb| - 1] == tb[i] && r[..|tb| - 1] == tb[..i] + tb[i + 1..]
  {
    ChooseSpec(tb, acked);
    if Choose(tb, acked).Some? {
      MoveToTailSpec(tb, Choose(tb, acked).value);
    }
  }

  /**
   * The row that takes the token from Tier A goes back to the tail still
   * with Token 0: the row is captured before its flag is set.
   */
  lemma TierAKeepsTokenZero(tb: Table, acked: seq<bool>)
    requires |acked| == |tb|
    requires Choose(tb, acked).Some? && tb[Choose(tb, acked).value].token == Fresh
    ensures Rotate(tb, acked).table[|tb| - 1].token == Fresh
  {
  }

  /** A radio that acknowledges nothing fails the rotation and leaves the table alone. */
  lemma SilentRadioPassesNothing(tb: Table, acked: seq<bool>)
    requires |acked| == |tb| && forall i :: 0 <= i < |acked| ==> !acked[i]
    ensures Rotate(tb, acked) == Rotation(false, tb)
  {
    ChooseSpec(tb, acked);
  }

  /**
   * Two rows lacking the file, the first with Token 0 and the second with
   * Token 1, both acknowledging: the first takes the token (Tier A) and goes
   * to the tail, its Token byte still 0.
   */
  lemma TwoPeerRotation(a: Bytes, b: Bytes)
    requires a != b
    ensures Rotate([Peer(a, 0, 0), Peer(b, 0, 1)], [true, true]) ==
            Rotation(true, [Peer(b, 0, 1), Peer(a, 0, 0)])
  {
    var tb := [Peer(a, 0, 0), Peer(b, 0, 1)];
    assert HasTier(tb, Fresh) by { assert tb[0].token == Fresh; }
    assert Choose(tb, [true, true]) == Some(0);
    assert MoveToTail(tb, 0) == [Peer(b, 0, 1), Peer(a, 0, 0)];
  }
}
