/**
 * The capture collection of km003c-lib (capture.rs): captured USB
 * transfers kept in arrival order, looked up by session, with the sorted
 * list of session ids and the integer counts of `statistics`. Saving and
 * loading, timestamps' floating-point range and the datetime text are not
 * modelled.
 */
module Capture {
  import opened Wrappers
  import opened Bytes

  datatype UsbDirection = HostToDevice | DeviceToHost

  /** `Display for UsbDirection`. */
  function DirectionText(d: UsbDirection): (s: string)
    ensures |s| == 4 && s[1..3] == "->"
    ensures d.HostToDevice? <==> s[0] == 'H'
    ensures d.HostToDevice? ==> s[3] == 'D'
    ensures d.DeviceToHost? ==> s[0] == 'D' && s[3] == 'H'
  {
    match d
    case HostToDevice => "H->D"
    case DeviceToHost => "D->H"
  }

  /** The two directions print differently. */
  lemma DirectionTextInjective(a: UsbDirection, b: UsbDirection)
    ensures DirectionText(a) == DirectionText(b) <==> a == b
  {
    if a != b {
      assert DirectionText(a)[0] != DirectionText(b)[0];
    }
  }

  /** `RawCapture`; the relative timestamp and the datetime text are carried as given. */
  datatype RawCapture = RawCapture(sessionId: string, timestamp: real, direction: UsbDirection,
                                   rawBytes: seq<byte>, frameNumber: u32, addedDatetime: string)

  /** One of `0`-`9`, `a`-`f`. */
  predicate IsLowerHexDigit(c: char)
  {
    '0' <= c <= '9' || 'a' <= c <= 'f'
  }

  /** Lower-case hexadecimal digit of a nibble. */
  function HexDigit(n: nat): (c: char)
    requires n < 16
    ensures IsLowerHexDigit(c) && HexValue(c) == n
  {
    if n < 10 then ('0' as int + n) as char else ('a' as int + n - 10) as char
  }

  /** The value of a lower-case hexadecimal digit (16 for anything else). */
  function HexValue(c: char): nat
  {
    if '0' <= c <= '9' then c as int - '0' as int
    else if 'a' <= c <= 'f' then c as int - 'a' as int + 10
    else 16
  }

  /** `hex_string` (`hex::encode`): two lower-case digits per byte, high nibble first. */
  function HexString(bytes: seq<byte>): (s: string)
    ensures |s| == 2 * |bytes|
    ensures forall i | 0 <= i < |s| :: IsLowerHexDigit(s[i])
    ensures forall i | 0 <= i < |bytes| :: 16 * HexValue(s[2 * i]) + HexValue(s[2 * i + 1]) == bytes[i]
  {
    if |bytes| == 0 then ""
    else
      var rest := HexString(bytes[1..]);
      var s := [HexDigit(bytes[0] / 16), HexDigit(bytes[0] % 16)] + rest;
      HexPrepend(s, rest, bytes);
      s
  }

  /** Two digits for one more byte in front keep every pair decoding to its byte. */
  lemma HexPrepend(s: string, rest: string, bytes: seq<byte>)
    requires |bytes| > 0 && |s| == 2 + |rest| && s[2..] == rest
    requires IsLowerHexDigit(s[0]) && IsLowerHexDigit(s[1]) && forall i | 0 <= i < |rest| :: IsLowerHexDigit(rest[i])
    requires 16 * HexValue(s[0]) + HexValue(s[1]) == bytes[0]
    requires |rest| == 2 * (|bytes| - 1)
    requires forall i | 0 <= i < |bytes| - 1 :: 16 * HexValue(rest[2 * i]) + HexValue(rest[2 * i + 1]) == bytes[1..][i]
    ensures forall i | 0 <= i < |s| :: IsLowerHexDigit(s[i])
    ensures forall i | 0 <= i < |bytes| :: 16 * HexValue(s[2 * i]) + HexValue(s[2 * i + 1]) == bytes[i]
  {
    forall i | 2 <= i < |s| ensures IsLowerHexDigit(s[i]) {
      assert s[i] == rest[i - 2];
    }
    forall i | 0 < i < |bytes|
      ensures 16 * HexValue(s[2 * i]) + HexValue(s[2 * i + 1]) == bytes[i]
    {
      assert s[2 * i] == rest[2 * (i - 1)] && s[2 * i + 1] == rest[2 * (i - 1) + 1];
      assert bytes[i] == bytes[1..][i - 1];
    }
  }

  /** Decoding the hex text gives the bytes back, so different captures print differently. */
  lemma HexStringInjective(a: seq<byte>, b: seq<byte>)
    requires HexString(a) == HexString(b)
    ensures a == b
  {
    SameDigitsSameBytes(HexString(a), a, b);
  }

  /** Byte strings that both decode from the same digit pairs are equal. */
  lemma SameDigitsSameBytes(s: string, a: seq<byte>, b: seq<byte>)
    requires |s| == 2 * |a| && |s| == 2 * |b|
    requires forall i | 0 <= i < |a| :: 16 * HexValue(s[2 * i]) + HexValue(s[2 * i + 1]) == a[i]
    requires forall i | 0 <= i < |b| :: 16 * HexValue(s[2 * i]) + HexValue(s[2 * i + 1]) == b[i]
    ensures a == b
  {
  }

  // ---------------------------------------------------------------------
  // Session ids in `String` order
  // ---------------------------------------------------------------------

  /**
   * `String`'s order: lexicographic on the UTF-8 bytes, which is the same
   * as lexicographic on the characters' code points.
   */
  predicate Less(a: string, b: string)
  {
    if |a| == 0 then |b| > 0
    else if |b| == 0 then false
    else if a[0] < b[0] then true
    else a[0] == b[0] && Less(a[1..], b[1..])
  }

  lemma {:induction false} LessIrreflexive(a: string)
    ensures !Less(a, a)
  {
    if |a| > 0 {
      LessIrreflexive(a[1..]);
    }
  }

  lemma {:induction false} LessTransitive(a: string, b: string, c: string)
    requires Less(a, b) && Less(b, c)
    ensures Less(a, c)
  {
    if |a| > 0 && |b| > 0 && |c| > 0 && a[0] == b[0] == c[0] {
      LessTransitive(a[1..], b[1..], c[1..]);
    }
  }

  lemma {:induction false} LessTotal(a: string, b: string)
    requires a != b
    ensures Less(a, b) || Less(b, a)
  {
    if |a| > 0 && |b| > 0 && a[0] == b[0] {
      assert a == [a[0]] + a[1..] && b == [b[0]] + b[1..];
      LessTotal(a[1..], b[1..]);
    }
  }

  /** The ids a list holds. */
  function Elems(xs: seq<string>): set<string>
  {
    set x | x in xs
  }

  lemma ElemsEmpty(xs: seq<string>)
    ensures Elems(xs) == {} <==> |xs| == 0
  {
    if |xs| > 0 {
      assert xs[0] in Elems(xs);
    }
  }

  /** Strictly ascending, hence without duplicates. */
  predicate StrictlySorted(xs: seq<string>)
  {
    forall i, j | 0 <= i < j < |xs| :: Less(xs[i], xs[j])
  }

  /** The session ids of a list of captures, as a set. */
  function SessionIdSet(cs: seq<RawCapture>): (ids: set<string>)
    ensures forall c | c in cs :: c.sessionId in ids
    ensures forall id | id in ids :: exists c | c in cs :: c.sessionId == id
  {
    set c | c in cs :: c.sessionId
  }

  /** Inserting an id into a strictly ascending list, unless it is already there. */
  function Insert(xs: seq<string>, x: string): (r: seq<string>)
    requires StrictlySorted(xs)
    ensures StrictlySorted(r)
    ensures Elems(r) == Elems(xs) + {x}
  {
    if |xs| == 0 then [x]
    else if x == xs[0] then xs
    else if Less(x, xs[0]) then
      assert forall y | y in Elems(xs) :: Less(x, y) by {
        forall y | y in Elems(xs) ensures Less(x, y) {
          var k :| 0 <= k < |xs| && xs[k] == y;
          if k > 0 { LessTransitive(x, xs[0], xs[k]); }
        }
      }
      PrependSmallest(x, xs);
      [x] + xs
    else
      LessTotal(x, xs[0]);
      var rest := Insert(xs[1..], x);
      assert forall y | y in Elems(rest) :: Less(xs[0], y) by {
        forall y | y in Elems(rest) ensures Less(xs[0], y) {
          if y != x {
            var k :| 0 <= k < |xs[1..]| && xs[1..][k] == y;
            assert xs[k + 1] == y;
          }
        }
      }
      PrependSmallest(xs[0], rest);
      assert xs == [xs[0]] + xs[1..];
      ElemsCons(xs[0], xs[1..]);
      [xs[0]] + rest
  }

  lemma ElemsCons(h: string, t: seq<string>)
    ensures Elems([h] + t) == {h} + Elems(t)
  {
  }

  /** An id below every element of an ascending list may head it. */
  lemma PrependSmallest(h: string, t: seq<string>)
    requires StrictlySorted(t)
    requires forall y | y in Elems(t) :: Less(h, y)
    ensures StrictlySorted([h] + t)
    ensures Elems([h] + t) == {h} + Elems(t)
  {
    ElemsCons(h, t);
    var r := [h] + t;
    forall i, j | 0 <= i < j < |r| ensures Less(r[i], r[j]) {
      assert r[j] == t[j - 1] && t[j - 1] in Elems(t);
      if i > 0 { assert r[i] == t[i - 1]; }
    }
  }

  /** A strictly ascending list is determined by its elements. */
  lemma {:induction false} StrictlySortedUnique(xs: seq<string>, ys: seq<string>)
    requires StrictlySorted(xs) && StrictlySorted(ys)
    requires Elems(xs) == Elems(ys)
    ensures xs == ys
  {
    if |xs| == 0 || |ys| == 0 {
      ElemsEmpty(xs);
      ElemsEmpty(ys);
    } else {
      assert xs[0] in Elems(ys);
      assert ys[0] in Elems(xs);
      if xs[0] != ys[0] {
        var i :| 0 <= i < |ys| && ys[i] == xs[0];
        var j :| 0 <= j < |xs| && xs[j] == ys[0];
        assert i > 0 && j > 0;
        LessTransitive(xs[0], ys[0], xs[0]);
        LessIrreflexive(xs[0]);
        assert false;
      }
      assert Elems(xs[1..]) == Elems(xs) - {xs[0]} by {
        forall x | x in xs[1..] ensures x != xs[0] {
          var k :| 1 <= k < |xs| && xs[k] == x;
          LessIrreflexive(xs[0]);
        }
      }
      assert Elems(ys[1..]) == Elems(ys) - {ys[0]} by {
        forall y | y in ys[1..] ensures y != ys[0] {
          var k :| 1 <= k < |ys| && ys[k] == y;
          LessIrreflexive(ys[0]);
        }
      }
      StrictlySortedUnique(xs[1..], ys[1..]);
      assert xs == [xs[0]] + xs[1..] && ys == [ys[0]] + ys[1..];
    }
  }

  // ---------------------------------------------------------------------
  // Session lookup and counts
  // ---------------------------------------------------------------------

  /** The captures of one session, in insertion order (`filter`). */
  function SessionOf(cs: seq<RawCapture>, sessionId: string): (r: seq<RawCapture>)
    ensures |r| <= |cs|
    ensures forall c | c in r :: c in cs && c.sessionId == sessionId
    ensures forall c | c in cs && c.sessionId == sessionId :: c in r
  {
    if |cs| == 0 then []
    else (if cs[0].sessionId == sessionId then [cs[0]] else []) + SessionOf(cs[1..], sessionId)
  }

  /** Filtering keeps the order: the session of a concatenation is the concatenation of the sessions. */
  lemma {:induction false} SessionOfAppend(a: seq<RawCapture>, b: seq<RawCapture>, sessionId: string)
    ensures SessionOf(a + b, sessionId) == SessionOf(a, sessionId) + SessionOf(b, sessionId)
  {
    if |a| > 0 {
      assert (a + b)[1..] == a[1..] + b;
      SessionOfAppend(a[1..], b, sessionId);
    } else {
      assert a + b == b;
    }
  }

  /** The number of captures travelling in one direction (`filter(..).count()`). */
  function CountDirection(cs: seq<RawCapture>, d: UsbDirection): (n: nat)
    ensures n <= |cs|
  {
    if |cs| == 0 then 0
    else (if cs[0].direction == d then 1 else 0) + CountDirection(cs[1..], d)
  }

  /** Every capture goes one way or the other. */
  lemma {:induction false} DirectionCountsPartition(cs: seq<RawCapture>)
    ensures CountDirection(cs, HostToDevice) + CountDirection(cs, DeviceToHost) == |cs|
  {
    if |cs| > 0 {
      DirectionCountsPartition(cs[1..]);
    }
  }

  /** The integer entries of `statistics`; the direction counts exist only for a non-empty collection. */
  datatype Statistics = Statistics(totalCaptures: nat, sessionCount: nat, directionCounts: Option<(nat, nat)>)

  /** `CaptureCollection`: the captures in arrival order. */
  class CaptureCollection {
    var captures: seq<RawCapture>

    /** `new` / `default`: an empty collection. */
    constructor ()
      ensures captures == []
    {
      captures := [];
    }

    /** `add`: the capture goes last; the earlier ones are kept as they were. */
    method Add(capture: RawCapture)
      modifies this
      ensures captures == old(captures) + [capture]
      ensures |captures| == |old(captures)| + 1
    {
      captures := captures + [capture];
    }

    /** `len`. */
    function Len(): (n: nat)
      reads this
      ensures n == |captures|
    {
      |captures|
    }

    /** `is_empty`. */
    predicate IsEmpty()
      reads this
      ensures IsEmpty() <==> Len() == 0
    {
      |captures| == 0
    }

    /** `get_session`. */
    function GetSession(sessionId: string): (r: seq<RawCapture>)
      reads this
      ensures r == SessionOf(captures, sessionId)
    {
      SessionOf(captures, sessionId)
    }

    /**
     * `session_ids`: every capture's session id, sorted and without
     * repeats. The source sorts then deduplicates; inserting into a sorted
     * list gives the same list, which `StrictlySortedUnique` pins down.
     */
    method SessionIds() returns (ids: seq<string>)
      ensures StrictlySorted(ids)
      ensures Elems(ids) == SessionIdSet(captures)
    {
      ids := [];
      for i := 0 to |captures|
        invariant StrictlySorted(ids)
        invariant Elems(ids) == SessionIdSet(captures[..i])
      {
        assert captures[..i + 1] == captures[..i] + [captures[i]];
        assert SessionIdSet(captures[..i + 1]) == SessionIdSet(captures[..i]) + {captures[i].sessionId};
        ids := Insert(ids, captures[i].sessionId);
      }
      assert captures[..|captures|] == captures;
    }

    /** The integer parts of `statistics`. */
    method GetStatistics() returns (s: Statistics)
      ensures s.totalCaptures == |captures|
      ensures s.sessionCount == |SessionIdSet(captures)|
      ensures s.directionCounts.None? <==> |captures| == 0
      ensures s.directionCounts.Some? ==>
        && s.directionCounts.value.0 == CountDirection(captures, HostToDevice)
        && s.directionCounts.value.1 == CountDirection(captures, DeviceToHost)
        && s.directionCounts.value.0 + s.directionCounts.value.1 == s.totalCaptures
    {
      var ids := SessionIds();
      DistinctCardinality(ids);
      var counts: Option<(nat, nat)> := None;
      if |captures| > 0 {
        DirectionCountsPartition(captures);
        counts := Some((CountDirection(captures, HostToDevice), CountDirection(captures, DeviceToHost)));
      }
      s := Statistics(|captures|, |ids|, counts);
    }
  }

  /** A list without repeats is as long as its set of elements. */
  lemma {:induction false} DistinctCardinality(xs: seq<string>)
    requires StrictlySorted(xs)
    ensures |Elems(xs)| == |xs|
  {
    if |xs| > 0 {
      DistinctCardinality(xs[1..]);
      assert xs[0] !in xs[1..] by {
        LessIrreflexive(xs[0]);
      }
      assert Elems(xs) == {xs[0]} + Elems(xs[1..]);
    }
  }

  /** After `add`, a session's captures are the old ones followed by the new capture if it belongs. */
  method AddThenGetSession(cc: CaptureCollection, capture: RawCapture, sessionId: string) returns (r: seq<RawCapture>)
    modifies cc
    ensures r == old(cc.GetSession(sessionId)) + (if capture.sessionId == sessionId then [capture] else [])
    ensures cc.Len() == old(cc.Len()) + 1
  {
    cc.Add(capture);
    SessionOfAppend(old(cc.captures), [capture], sessionId);
    assert SessionOf([capture], sessionId) == (if capture.sessionId == sessionId then [capture] else []) + SessionOf([], sessionId);
    r := cc.GetSession(sessionId);
  }
}
