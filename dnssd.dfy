/**
 * Dnssd::RequestIdRange: the interval [start, end) of outstanding request
 * IDs, compared in serial-number arithmetic so that it keeps working when
 * the 32-bit IDs wrap around.
 */
module DnssdRequestIds {
  import opened Common

  /** How far `id` lies past `start`, counting modulo 2^32. */
  function Offset(start: uint32, id: uint32): uint32
  {
    Wrap32(id - start)
  }

  /** Contains: start <= id < end in serial-number order. */
  predicate InRange(start: uint32, end: uint32, id: uint32)
  {
    !SerialLess(id, start) && SerialLess(id, end)
  }

  /** The (start, end) after Add(id). */
  function Added(start: uint32, end: uint32, id: uint32): (uint32, uint32)
  {
    if start == end then (id, Wrap32(id + 1))
    else if SerialLess(id, start) then (id, end)
    else if !SerialLess(id, end) then (start, Wrap32(id + 1))
    else (start, end)
  }

  /** The (start, end) after Remove(id). */
  function Removed(start: uint32, end: uint32, id: uint32): (uint32, uint32)
  {
    if start == end then (start, end)
    else if id == start then (Wrap32(start + 1), end)
    else if Wrap32(id + 1) == end then (start, Wrap32(end - 1))
    else (start, end)
  }

  class RequestIdRange {
    var start: uint32
    var end: uint32

    constructor ()
      ensures start == 0 && end == 0 && IsEmpty()
    {
      start, end := 0, 0;
    }

    predicate IsEmpty()
      reads this
    {
      start == end
    }

    predicate Contains(id: uint32)
      reads this
    {
      InRange(start, end, id)
    }

    method Add(id: uint32)
      modifies this
      ensures (start, end) == Added(old(start), old(end), id)
    {
      if start == end {
        start := id;
        end := Wrap32(id + 1);
      } else if SerialLess(id, start) {
        start := id;
      } else if !SerialLess(id, end) {
        end := Wrap32(id + 1);
      }
    }

    method Remove(id: uint32)
      modifies this
      ensures (start, end) == Removed(old(start), old(end), id)
    {
      if start != end {
        if id == start {
          start := Wrap32(start + 1);
        } else if Wrap32(id + 1) == end {
          end := Wrap32(end - 1);
        }
      }
    }
  }

  // ---------------------------------------------------------------------
  // Properties
  // ---------------------------------------------------------------------

  /**
   * While the range spans fewer than 2^31 IDs, serial-number Contains is
   * exactly membership in start, start + 1, ..., end - 1 (modulo 2^32).
   */
  lemma InRangeIsInterval(start: uint32, end: uint32, id: uint32)
    requires Offset(start, end) < HalfSpace
    ensures InRange(start, end, id) <==> Offset(start, id) < Offset(start, end)
  {
    var a, w := Offset(start, id), Offset(start, end);
    Wrap32Near(id - start);
    Wrap32Near(end - start);
    Wrap32Near(id - end);
    Wrap32Near(a as int - w as int);
    assert Wrap32(id - end) == Wrap32(a as int - w as int);
  }

  /** Add on an empty range yields [id, id + 1). */
  lemma AddToEmpty(start: uint32, id: uint32)
    ensures Added(start, start, id) == (id, Wrap32(id + 1))
    ensures Offset(id, Wrap32(id + 1)) == 1
  {
  }

  /**
   * After Add(id), Contains(id) holds, provided the resulting range is a
   * proper serial interval (non-empty and narrower than half the ID space).
   */
  lemma AddContains(start: uint32, end: uint32, id: uint32)
    requires var (s, e) := Added(start, end, id); 0 < Offset(s, e) < HalfSpace
    ensures var (s, e) := Added(start, end, id); InRange(s, e, id)
  {
    var (s, e) := Added(start, end, id);
    InRangeIsInterval(s, e, id);
    if start == end || SerialLess(id, start) {
      assert s == id && Offset(s, id) == 0;
    } else if !SerialLess(id, end) {
      assert s == start && e == Wrap32(id + 1);
      OffsetToNext(start, id);
    }
  }

  /** Add only ever moves start back to the new ID or end forward past it. */
  lemma AddOnlyWidens(start: uint32, end: uint32, id: uint32)
    requires start != end
    ensures var (s, e) := Added(start, end, id);
            (s == start || (s == id && SerialLess(id, start)))
            && (e == end || (e == Wrap32(id + 1) && !SerialLess(id, end)))
            && (s == start || e == end)
  {
  }

  /** Remove changes the range only when the ID is at one of its two ends. */
  lemma RemoveOnlyAtEnds(start: uint32, end: uint32, id: uint32)
    ensures Removed(start, end, id) != (start, end) <==>
              start != end && (id == start || Wrap32(id + 1) == end)
  {
  }

  /** The ID after `id` lies one step further past `start`, modulo 2^32. */
  lemma OffsetToNext(start: uint32, id: uint32)
    ensures Offset(start, Wrap32(id + 1)) == Wrap32(Offset(start, id) + 1)
  {
    Wrap32Near(id + 1);
    Wrap32Near(id - start);
    Wrap32Near(Wrap32(id + 1) - start);
    Wrap32Near(Offset(start, id) + 1);
  }

  /** Moving the start one ID on brings every other ID one step closer. */
  lemma OffsetFromNext(start: uint32, id: uint32)
    ensures id != start ==> Offset(Wrap32(start + 1), id) == Offset(start, id) - 1
  {
    Wrap32Near(start + 1);
    Wrap32Near(id - start);
    Wrap32Near(id - Wrap32(start + 1));
  }

  /** Removing the first ID of a proper range drops exactly that ID. */
  lemma RemoveFirstDropsIt(start: uint32, end: uint32, other: uint32)
    requires 0 < Offset(start, end) < HalfSpace
    ensures var (s, e) := Removed(start, end, start);
            !InRange(s, e, start)
            && (InRange(s, e, other) <==> other != start && InRange(start, end, other))
  {
    var (s, e) := Removed(start, end, start);
    assert s == Wrap32(start + 1) && e == end;
    OffsetFromNext(start, end);
    OffsetFromNext(start, other);
    InRangeIsInterval(start, end, other);
    InRangeIsInterval(s, e, other);
    InRangeIsInterval(s, e, start);
  }
}
