/** Records laid one after the other in a byte buffer. A trace file is a
    header followed by runs of such records (regions, symbols, threads), and
    each run is read by a loop that decodes the record under its read pointer
    and moves the pointer just past it. Here a record decoder is given the
    bytes from the read pointer on and hands back what follows the record. */
module Framing {
  import opened Bytes
  import opened OrderedMaps

  /** n records read one after the other from the front of rest, and the
      bytes after the last of them; None as soon as one does not decode. */
  function Repeat<T>(dec: seq<Byte> -> Option<(T, seq<Byte>)>, rest: seq<Byte>, n: nat)
    : (r: Option<(seq<T>, seq<Byte>)>)
    ensures r.Some? ==> |r.value.0| == n
    decreases n
  {
    if n == 0 then Some(([], rest))
    else
      match dec(rest)
      case None => None
      case Some((h, after)) =>
        match Repeat(dec, after, n - 1)
        case None => None
        case Some((hs, tail)) => Some(([h] + hs, tail))
  }

  /** A walk of n records starts with one record, and the walk of the
      other n - 1 goes on from just after it. */
  lemma RepeatStep<T>(dec: seq<Byte> -> Option<(T, seq<Byte>)>, rest: seq<Byte>, n: nat,
                      vals: seq<T>, tail: seq<Byte>)
    requires n > 0 && Repeat(dec, rest, n) == Some((vals, tail))
    ensures dec(rest).Some? && dec(rest).value.0 == vals[0]
    ensures Repeat(dec, dec(rest).value.1, n - 1) == Some((vals[1..], tail))
  {
  }

  /** A pointer walk over n records that only moves the read pointer: each
      turn reads the header under the pointer and steps past the record. */
  method Skip<T>(dec: seq<Byte> -> Option<(T, seq<Byte>)>, buf: seq<Byte>, n: nat)
    returns (rest: seq<Byte>)
    requires Repeat(dec, buf, n).Some?
    ensures rest == Repeat(dec, buf, n).value.1
  {
    ghost var left := Repeat(dec, buf, n).value.0;
    ghost var tail := Repeat(dec, buf, n).value.1;
    rest := buf;
    var i := 0;
    while i < n
      invariant i <= n && |left| == n - i
      invariant Repeat(dec, rest, n - i) == Some((left, tail))
    {
      RepeatStep(dec, rest, n - i, left, tail);
      rest := dec(rest).value.1;
      left := left[1..];
      i := i + 1;
    }
  }

  /** Records written one after the other. */
  function Join(parts: seq<seq<Byte>>): (r: seq<Byte>)
  {
    if parts == [] then [] else parts[0] + Join(parts[1..])
  }

  /** The records from the i-th on are the i-th followed by those after it. */
  lemma JoinFrom(parts: seq<seq<Byte>>, i: nat)
    requires i < |parts|
    ensures Join(parts[i..]) == parts[i] + Join(parts[i + 1..])
  {
    assert parts[i..][1..] == parts[i + 1..];
  }

  /** Writing the i-th record after prev leaves the rest to follow. */
  lemma JoinStep(parts: seq<seq<Byte>>, i: nat, prev: seq<Byte>)
    requires i < |parts|
    ensures prev + Join(parts[i..]) == (prev + parts[i]) + Join(parts[i + 1..])
  {
    JoinFrom(parts, i);
  }

  /** dec reads back val from the record part, whatever follows it, and hands
      back exactly what follows. */
  ghost predicate ReadsBackOne<U>(dec: seq<Byte> -> Option<(U, seq<Byte>)>, part: seq<Byte>, val: U)
  {
    forall q: seq<Byte> :: dec(part + q) == Some((val, q))
  }

  /** dec reads back vals[i] from each record parts[i]. */
  ghost predicate ReadsBack<U>(dec: seq<Byte> -> Option<(U, seq<Byte>)>, parts: seq<seq<Byte>>,
                               vals: seq<U>)
  {
    |parts| == |vals|
    && (|parts| > 0 ==> ReadsBackOne(dec, parts[0], vals[0]) && ReadsBack(dec, parts[1..], vals[1..]))
  }

  /** When each record reads back, the run of them reads back, in order, and
      the walk hands back what follows the last. */
  lemma {:induction false} RepeatJoin<U>(dec: seq<Byte> -> Option<(U, seq<Byte>)>,
                                         parts: seq<seq<Byte>>, vals: seq<U>, q: seq<Byte>)
    requires ReadsBack(dec, parts, vals)
    ensures Repeat(dec, Join(parts) + q, |parts|) == Some((vals, q))
    decreases |parts|
  {
    if parts != [] {
      var rest := Join(parts[1..]) + q;
      assert Join(parts) + q == parts[0] + rest;
      assert dec(parts[0] + rest) == Some((vals[0], rest));
      RepeatJoin(dec, parts[1..], vals[1..], q);
      assert [vals[0]] + vals[1..] == vals;
    } else {
      assert Join(parts) + q == q;
    }
  }
}
