/** The placements between two places of one path: along it, or the shorter way round a ring. */
module BeamArcs {
  import opened Wrappers

  /** From `i` on to `j`, past the end of a closed path if need be; nothing when that way does not exist. */
  function Forward<T>(row: seq<T>, i: nat, j: nat, closed: bool): Option<seq<T>>
    requires i < |row| && j < |row|
  {
    if i < j then Some(row[i + 1..j])
    else if i == j then Some([])
    else if closed then Some(row[i + 1..] + row[..j])
    else None
  }

  function Backward<T>(row: seq<T>, i: nat, j: nat, closed: bool): Option<seq<T>>
    requires i < |row| && j < |row|
  {
    if i <= j then if closed then Some(row[j + 1..] + row[..i]) else None
    else Some(row[j + 1..i])
  }

  function Shorter<T>(fwd: Option<seq<T>>, back: Option<seq<T>>): seq<T> {
    match (fwd, back)
    case (Some(f), Some(b)) => if |f| <= |b| then f else b
    case (Some(f), None) => f
    case (None, Some(b)) => b
    case (None, None) => []
  }

  function Along<T>(row: seq<T>, i: nat, j: nat, closed: bool): seq<T>
    requires i < |row| && j < |row|
  {
    Shorter(Forward(row, i, j, closed), Backward(row, i, j, closed))
  }

  /** The two arcs of a ring and the two ends are the whole ring, each placement once; the shorter arc is
      taken, and it is as long whichever end is named first. */
  lemma ArcsPartitionTheRing<T>(row: seq<T>, i: nat, j: nat)
    requires i < |row| && j < |row| && i != j
    ensures var fwd, back := Forward(row, i, j, true), Backward(row, i, j, true);
            && fwd.Some? && back.Some?
            && multiset(row) == multiset(fwd.value) + multiset(back.value) + multiset{row[i], row[j]}
            && (Along(row, i, j, true) == fwd.value || Along(row, i, j, true) == back.value)
            && |Along(row, i, j, true)| <= |fwd.value| && |Along(row, i, j, true)| <= |back.value|
            && |Along(row, i, j, true)| == |Along(row, j, i, true)|
            && 2 * |Along(row, i, j, true)| + 2 <= |row|
  {
    var a, b := if i < j then i else j, if i < j then j else i;
    CutInTwo(row, a, b);
  }

  /** Of two arcs as long the one onwards is taken. */
  lemma OnwardsIfAsLong<T>(row: seq<T>, i: nat, j: nat)
    requires i < |row| && j < |row|
    ensures var fwd, back := Forward(row, i, j, true).value, Backward(row, i, j, true).value;
            Along(row, i, j, true) == if |fwd| <= |back| then fwd else back
  {
  }

  /** Between a place and itself there is nothing. */
  lemma NothingWithin<T>(row: seq<T>, i: nat, closed: bool)
    requires i < |row|
    ensures Along(row, i, i, closed) == []
  {
  }

  lemma CutInTwo<T>(row: seq<T>, a: nat, b: nat)
    requires a < b < |row|
    ensures multiset(row) == multiset(row[a + 1..b]) + multiset(row[b + 1..] + row[..a]) + multiset{row[a], row[b]}
  {
    var inner, tail := row[a + 1..b], [row[b]] + row[b + 1..];
    assert row == row[..a] + ([row[a]] + (inner + tail));
  }

  /** On an open path what is between two placements is the stretch of it, in path order, either way. */
  lemma BetweenOnAnOpenPath<T>(row: seq<T>, i: nat, j: nat)
    requires i < |row| && j < |row|
    ensures Along(row, i, j, false) == Along(row, j, i, false)
    ensures Along(row, i, j, false) == if i < j then row[i + 1..j] else if j < i then row[j + 1..i] else []
  {
  }
}
