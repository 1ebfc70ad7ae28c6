/** The group decoder of `read_status_data`: after a four-byte prefix, a response holds
    ten groups `<id> <count> <value:2>{count}` of big-endian 16-bit values. */
module Groups {
  import opened Common

  const GroupCount: nat := 10
  const FirstGroupOffset: nat := 4

  /** The value `unpack_from(">H", ...)` reads from the byte pair (hi, lo). */
  function BigEndian16(hi: byte, lo: byte): u16 {
    hi * 0x100 + lo
  }

  /** The byte pair a value is sent as, high byte first. */
  function Bytes16(v: u16): seq<byte> {
    [v / 0x100, v % 0x100]
  }

  /** The values of the byte pairs of `buf[lo..hi]`, in order: what the list
      comprehension of `read_status_data` builds from a group's payload slice. */
  function WordsIn(buf: seq<byte>, lo: nat, hi: nat): (ws: seq<u16>)
    requires lo <= hi <= |buf| && (hi - lo) % 2 == 0
    ensures 2 * |ws| == hi - lo
    decreases hi - lo
  {
    if lo == hi then []
    else [BigEndian16(buf[lo], buf[lo + 1])] + WordsIn(buf, lo + 2, hi)
  }

  /** Value `k` of a payload is the big-endian reading of its `k`-th byte pair. */
  lemma {:induction false} WordsInAt(buf: seq<byte>, lo: nat, hi: nat, k: nat)
    requires lo <= hi <= |buf| && (hi - lo) % 2 == 0 && lo + 2 * k < hi
    ensures WordsIn(buf, lo, hi)[k] == BigEndian16(buf[lo + 2 * k], buf[lo + 2 * k + 1])
    decreases k
  {
    if k > 0 {
      WordsInAt(buf, lo + 2, hi, k - 1);
    }
  }

  /** The payload bytes of a run of values. */
  function Unwords(ws: seq<u16>): (payload: seq<byte>)
    ensures |payload| == 2 * |ws|
  {
    if ws == [] then [] else Bytes16(ws[0]) + Unwords(ws[1..])
  }

  lemma Regroup(a: seq<byte>, b: seq<byte>, c: seq<byte>, d: seq<byte>)
    ensures a + (b + c) + d == (a + b) + (c + d) == (a + b) + c + d
  {
  }

  /** Values sent as their byte pairs anywhere in a buffer are read back unchanged. */
  lemma {:induction false} WordsInUnwords(prefix: seq<byte>, ws: seq<u16>, tail: seq<byte>)
    ensures |prefix| + 2 * |ws| <= |prefix + Unwords(ws) + tail|
    ensures WordsIn(prefix + Unwords(ws) + tail, |prefix|, |prefix| + 2 * |ws|) == ws
    decreases |ws|
  {
    if ws != [] {
      var buf := prefix + Unwords(ws) + tail;
      var p := |prefix|;
      Regroup(prefix, Bytes16(ws[0]), Unwords(ws[1..]), tail);
      var prefix' := prefix + Bytes16(ws[0]);
      assert buf == prefix' + Unwords(ws[1..]) + tail;
      assert buf[p] == ws[0] / 0x100 && buf[p + 1] == ws[0] % 0x100;
      WordsInUnwords(prefix', ws[1..], tail);
      assert WordsIn(buf, p, p + 2 * |ws|) == [ws[0]] + ws[1..];
    }
  }

  /** Adds decoded groups in front of the decoding of the rest, which may have failed. */
  function Prepend(groups: seq<seq<u16>>, rest: Option<seq<seq<u16>>>): Option<seq<seq<u16>>> {
    match rest
    case None => None
    case Some(tail) => Some(groups + tail)
  }

  lemma PrependTwice(groups: seq<seq<u16>>, g: seq<u16>, rest: Option<seq<seq<u16>>>)
    ensures Prepend(groups, Prepend([g], rest)) == Prepend(groups + [g], rest)
  {
    if rest.Some? {
      assert groups + ([g] + rest.value) == (groups + [g]) + rest.value;
    }
  }

  /** The declared end of the payload of the group whose header starts at `i`: where
      the cursor moves next. */
  function GroupEnd(buf: seq<byte>, i: nat): nat
    requires i + 1 < |buf|
  {
    i + 2 + 2 * (buf[i + 1] as int)
  }

  /** Where the payload slice `buf[i + 2 .. end]` of the group at `i` stops: at its
      declared end, or at the buffer's end if that comes first. */
  function SliceEnd(buf: seq<byte>, i: nat): (stop: nat)
    requires i + 1 < |buf|
    ensures i + 2 <= stop <= |buf|
  {
    Min(GroupEnd(buf, i), |buf|)
  }

  /** The driver reads the group at `i` without raising: its count byte lies inside
      the buffer (else IndexError) and its payload slice has an even length (else
      struct.error). */
  predicate Readable(buf: seq<byte>, i: nat) {
    i + 1 < |buf| && (SliceEnd(buf, i) - (i + 2)) % 2 == 0
  }

  /** The values of the group at `i`: the byte pairs of its payload slice. */
  function GroupValues(buf: seq<byte>, i: nat): seq<u16>
    requires Readable(buf, i)
  {
    WordsIn(buf, i + 2, SliceEnd(buf, i))
  }

  /** Decodes `n` groups with the cursor at `i`, as the driver's loop does. `None` stands
      for the places where the driver raises. A slice cut short to an even length is
      decoded to fewer values without error, and the cursor still moves to the
      declared end. */
  function DecodeAt(buf: seq<byte>, i: nat, n: nat): (r: Option<seq<seq<u16>>>)
    ensures r.Some? ==> |r.value| == n
    decreases n
  {
    if n == 0 then Some([])
    else if !Readable(buf, i) then None
    else Prepend([GroupValues(buf, i)], DecodeAt(buf, GroupEnd(buf, i), n - 1))
  }

  /** The loop's invariant survives one turn: the groups decoded so far followed by
      the decoding from the cursor stay the decoding of the whole response. */
  lemma DecodeAtAdvance(buf: seq<byte>, i: nat, n: nat, groups: seq<seq<u16>>, whole: Option<seq<seq<u16>>>)
    requires n > 0 && Readable(buf, i)
    requires whole == Prepend(groups, DecodeAt(buf, i, n))
    ensures whole == Prepend(groups + [GroupValues(buf, i)], DecodeAt(buf, GroupEnd(buf, i), n - 1))
  {
    PrependTwice(groups, GroupValues(buf, i), DecodeAt(buf, GroupEnd(buf, i), n - 1));
  }

  /** The ten groups of a response. */
  function Decode(buf: seq<byte>): (r: Option<seq<seq<u16>>>)
    ensures r.Some? ==> |r.value| == GroupCount
  {
    DecodeAt(buf, FirstGroupOffset, GroupCount)
  }

  /** The loop of `read_status_data` over the ten groups. */
  method DecodeStatus(buf: seq<byte>) returns (r: Option<seq<seq<u16>>>)
    ensures r == Decode(buf)
  {
    r := DecodeGroups(buf, FirstGroupOffset, GroupCount);
  }

  /** Reads `count` groups from `start` on, the cursor `i` moving to each declared end. */
  method DecodeGroups(buf: seq<byte>, start: nat, count: nat) returns (r: Option<seq<seq<u16>>>)
    ensures r == DecodeAt(buf, start, count)
  {
    var groups: seq<seq<u16>> := [];
    var i := start;
    var left := count;
    ghost var whole := DecodeAt(buf, start, count);
    if whole.Some? {
      assert [] + whole.value == whole.value;
    }
    while left > 0
      invariant |groups| + left == count
      invariant whole == Prepend(groups, DecodeAt(buf, i, left))
    {
      var values, end, ok := ReadGroup(buf, i);
      if !ok {
        return None;
      }
      DecodeAtAdvance(buf, i, left, groups, whole);
      groups := groups + [values];
      i := end;
      left := left - 1;
    }
    assert groups + [] == groups;
    return Some(groups);
  }

  /** One turn of the loop: reads the count byte of the group at `i` and the values of
      its payload, which the buffer's end may cut short. `ok` is false where the
      driver raises. */
  method ReadGroup(buf: seq<byte>, i: nat) returns (values: seq<u16>, end: nat, ok: bool)
    ensures ok <==> Readable(buf, i)
    ensures ok ==> end == GroupEnd(buf, i) && values == GroupValues(buf, i)
  {
    if i + 1 >= |buf| {
      return [], i, false;
    }
    var groupLen := buf[i + 1];
    end := i + 2 + 2 * (groupLen as int);
    // the slice buf[i + 2 : end] stops at the buffer's end
    var stop := Min(end, |buf|);
    if (stop - (i + 2)) % 2 == 1 {
      return [], end, false;
    }
    values := WordsIn(buf, i + 2, stop);
    ok := true;
  }

  /** The buffer holds every header and every declared payload of `n` groups from `i`. */
  predicate HoldsGroups(buf: seq<byte>, i: nat, n: nat)
    decreases n
  {
    n == 0 || (i + 1 < |buf| && GroupEnd(buf, i) <= |buf| && HoldsGroups(buf, GroupEnd(buf, i), n - 1))
  }

  /** Where the cursor stands after `j` groups from `i`. */
  function Cursor(buf: seq<byte>, i: nat, j: nat): nat
    decreases j
  {
    if j == 0 || i + 1 >= |buf| then i else Cursor(buf, GroupEnd(buf, i), j - 1)
  }

  /** A group whose declared payload lies inside the buffer is read whole. */
  lemma HeldReadable(buf: seq<byte>, i: nat)
    requires i + 1 < |buf| && GroupEnd(buf, i) <= |buf|
    ensures Readable(buf, i) && GroupValues(buf, i) == WordsIn(buf, i + 2, GroupEnd(buf, i))
  {
    assert SliceEnd(buf, i) == GroupEnd(buf, i);
  }

  lemma {:induction false} HoldsDecodes(buf: seq<byte>, i: nat, n: nat)
    requires HoldsGroups(buf, i, n)
    ensures DecodeAt(buf, i, n).Some?
    decreases n
  {
    if n > 0 {
      HeldReadable(buf, i);
      HoldsDecodes(buf, GroupEnd(buf, i), n - 1);
    }
  }

  /** Group `k` of a held buffer is the first group decoded from the cursor the
      groups before it leave. */
  lemma {:induction false} DecodeShift(buf: seq<byte>, i: nat, n: nat, k: nat)
    requires HoldsGroups(buf, i, n) && k < n
    ensures DecodeAt(buf, i, n).Some? && DecodeAt(buf, Cursor(buf, i, k), n - k).Some?
    ensures DecodeAt(buf, i, n).value[k] == DecodeAt(buf, Cursor(buf, i, k), n - k).value[0]
    decreases k
  {
    HoldsDecodes(buf, i, n);
    if k > 0 {
      HeldReadable(buf, i);
      DecodeShift(buf, GroupEnd(buf, i), n - 1, k - 1);
      assert Cursor(buf, i, k) == Cursor(buf, GroupEnd(buf, i), k - 1);
    } else {
      assert Cursor(buf, i, 0) == i;
    }
  }

  /** After group `k` the cursor stands at the end of that group's declared payload. */
  lemma {:induction false} CursorAdvances(buf: seq<byte>, i: nat, n: nat, k: nat)
    requires HoldsGroups(buf, i, n) && k < n
    ensures Cursor(buf, i, k) + 1 < |buf|
    ensures var c := Cursor(buf, i, k);
      Cursor(buf, i, k + 1) == GroupEnd(buf, c) <= |buf|
    decreases k
  {
    var end := GroupEnd(buf, i);
    if k == 0 {
      assert Cursor(buf, end, 0) == end;
    } else {
      CursorAdvances(buf, end, n - 1, k - 1);
      assert Cursor(buf, i, k) == Cursor(buf, end, k - 1);
      assert Cursor(buf, i, k + 1) == Cursor(buf, end, k);
    }
  }

  /** A buffer that holds all declared bytes decodes, and group `k` is read at the
      cursor left by the groups before it: its count is the byte after the id, its
      values are the pairs of the declared payload, and the cursor then moves to the
      payload's end. */
  lemma GroupLayout(buf: seq<byte>, i: nat, n: nat, k: nat)
    requires HoldsGroups(buf, i, n) && k < n
    ensures DecodeAt(buf, i, n).Some?
    ensures Cursor(buf, i, k) + 1 < |buf|
    ensures var c := Cursor(buf, i, k);
      var end := GroupEnd(buf, c);
      end <= |buf| &&
      DecodeAt(buf, i, n).value[k] == WordsIn(buf, c + 2, end) &&
      |DecodeAt(buf, i, n).value[k]| == buf[c + 1] &&
      Cursor(buf, i, k + 1) == end
  {
    DecodeShift(buf, i, n, k);
    CursorAdvances(buf, i, n, k);
    HeldReadable(buf, Cursor(buf, i, k));
  }

  /** When decoding succeeds, every group but the last was complete in the buffer:
      a short group anywhere else makes the driver raise. */
  lemma {:induction false} OnlyLastGroupMayBeShort(buf: seq<byte>, i: nat, n: nat)
    requires n > 0 && DecodeAt(buf, i, n).Some?
    ensures HoldsGroups(buf, i, n - 1)
    ensures Cursor(buf, i, n - 1) + 1 < |buf|
    decreases n
  {
    if n > 1 {
      OnlyLastGroupMayBeShort(buf, GroupEnd(buf, i), n - 1);
      assert Cursor(buf, i, n - 1) == Cursor(buf, GroupEnd(buf, i), n - 2);
    }
  }

  /** Once the groups before the last are held, the last one decides: decoding
      succeeds exactly when the last group can be read. */
  lemma {:induction false} LastGroupDecodes(buf: seq<byte>, i: nat, n: nat)
    requires n > 0 && HoldsGroups(buf, i, n - 1)
    ensures DecodeAt(buf, i, n).Some? <==> Readable(buf, Cursor(buf, i, n - 1))
    decreases n
  {
    if n == 1 {
      assert Cursor(buf, i, 0) == i;
    } else {
      HeldReadable(buf, i);
      LastGroupDecodes(buf, GroupEnd(buf, i), n - 1);
      assert Cursor(buf, i, n - 1) == Cursor(buf, GroupEnd(buf, i), n - 2);
    }
  }

  /** When decoding succeeds, the last group's values are the pairs of its payload up
      to its declared end or the buffer's end, whichever comes first. */
  lemma {:induction false} LastGroupValues(buf: seq<byte>, i: nat, n: nat)
    requires n > 0 && HoldsGroups(buf, i, n - 1) && DecodeAt(buf, i, n).Some?
    ensures var c := Cursor(buf, i, n - 1);
      Readable(buf, c) && DecodeAt(buf, i, n).value[n - 1] == GroupValues(buf, c)
    decreases n
  {
    if n == 1 {
      assert Cursor(buf, i, 0) == i;
    } else {
      HeldReadable(buf, i);
      LastGroupValues(buf, GroupEnd(buf, i), n - 1);
      assert Cursor(buf, i, n - 1) == Cursor(buf, GroupEnd(buf, i), n - 2);
    }
  }

  /** Once the groups before the last are held, all are held exactly when the last
      one's count byte and declared payload lie inside the buffer. */
  lemma {:induction false} LastGroupHeld(buf: seq<byte>, i: nat, n: nat)
    requires n > 0 && HoldsGroups(buf, i, n - 1)
    ensures var c := Cursor(buf, i, n - 1);
      HoldsGroups(buf, i, n) <==> c + 1 < |buf| && GroupEnd(buf, c) <= |buf|
    decreases n
  {
    if n > 1 {
      LastGroupHeld(buf, GroupEnd(buf, i), n - 1);
      assert Cursor(buf, i, n - 1) == Cursor(buf, GroupEnd(buf, i), n - 2);
    }
  }

  /** `n` groups from `i` decode exactly when the first `n - 1` are complete in the
      buffer and the last can be read, complete or cut short to an even number of
      bytes. */
  lemma DecodeAtSucceeds(buf: seq<byte>, i: nat, n: nat)
    requires n > 0
    ensures DecodeAt(buf, i, n).Some? <==>
      HoldsGroups(buf, i, n - 1) && Readable(buf, Cursor(buf, i, n - 1))
  {
    if DecodeAt(buf, i, n).Some? {
      OnlyLastGroupMayBeShort(buf, i, n);
    }
    if HoldsGroups(buf, i, n - 1) {
      LastGroupDecodes(buf, i, n);
    }
  }

  /** The decoder tolerates a last group cut short to an even number of bytes: the
      response decodes though not all declared bytes are present, and the last group
      has fewer values than its count byte declares. */
  lemma ShortLastGroupAccepted(buf: seq<byte>, i: nat, n: nat)
    requires n > 0 && HoldsGroups(buf, i, n - 1)
    requires var c := Cursor(buf, i, n - 1);
      c + 1 < |buf| && |buf| < GroupEnd(buf, c) && (|buf| - (c + 2)) % 2 == 0
    ensures !HoldsGroups(buf, i, n)
    ensures DecodeAt(buf, i, n).Some?
    ensures var c := Cursor(buf, i, n - 1);
      |DecodeAt(buf, i, n).value[n - 1]| == (|buf| - (c + 2)) / 2 < buf[c + 1]
  {
    LastGroupDecodes(buf, i, n);
    LastGroupValues(buf, i, n);
    LastGroupHeld(buf, i, n);
  }

  /** A group as it travels on the wire: an id byte the decoder ignores and at most
      255 values, since the count is one byte. */
  datatype Group = Group(id: byte, values: seq<u16>)

  predicate Encodable(g: Group) {
    |g.values| < 0x100
  }

  function EncodeGroup(g: Group): (bytes: seq<byte>)
    requires Encodable(g)
  {
    [g.id, |g.values|] + Unwords(g.values)
  }

  function EncodeGroups(gs: seq<Group>): (bytes: seq<byte>)
    requires forall k :: 0 <= k < |gs| ==> Encodable(gs[k])
  {
    if gs == [] then [] else EncodeGroup(gs[0]) + EncodeGroups(gs[1..])
  }

  function ValuesOf(gs: seq<Group>): (vs: seq<seq<u16>>)
    ensures |vs| == |gs|
    ensures forall k :: 0 <= k < |gs| ==> vs[k] == gs[k].values
  {
    if gs == [] then [] else [gs[0].values] + ValuesOf(gs[1..])
  }

  /** One encoded group anywhere in a buffer: its count byte follows the id, its
      declared payload lies inside the buffer and reads back as its values. */
  lemma EncodedGroupAt(prefix: seq<byte>, g: Group, tail: seq<byte>)
    requires Encodable(g)
    ensures var buf := prefix + EncodeGroup(g) + tail;
      var end := |prefix| + 2 + 2 * |g.values|;
      |prefix| + 1 < |buf| && buf[|prefix| + 1] == |g.values| && end <= |buf| &&
      WordsIn(buf, |prefix| + 2, end) == g.values
  {
    var header: seq<byte> := [g.id, |g.values|];
    Regroup(prefix, header, Unwords(g.values), tail);
    WordsInUnwords(prefix + header, g.values, tail);
    assert (prefix + header)[|prefix| + 1] == |g.values|;
  }

  /** `buf` carries the groups `gs` from `i` on: each one's count byte holds the
      number of its values, which follow as byte pairs inside the buffer. */
  predicate CarriesAt(buf: seq<byte>, i: nat, gs: seq<Group>)
    decreases |gs|
  {
    gs == [] ||
    (var end := i + 2 + 2 * |gs[0].values|;
     i + 1 < |buf| && buf[i + 1] == |gs[0].values| && end <= |buf| &&
     WordsIn(buf, i + 2, end) == gs[0].values && CarriesAt(buf, end, gs[1..]))
  }

  /** Encoded groups after any prefix and before any bytes are carried there. */
  lemma {:induction false} EncodedCarried(prefix: seq<byte>, gs: seq<Group>, rest: seq<byte>)
    requires forall k :: 0 <= k < |gs| ==> Encodable(gs[k])
    ensures CarriesAt(prefix + EncodeGroups(gs) + rest, |prefix|, gs)
    decreases |gs|
  {
    if gs != [] {
      var g := gs[0];
      var tail := EncodeGroups(gs[1..]) + rest;
      assert EncodeGroups(gs) == EncodeGroup(g) + EncodeGroups(gs[1..]);
      Regroup(prefix, EncodeGroup(g), EncodeGroups(gs[1..]), rest);
      EncodedGroupAt(prefix, g, tail);
      assert forall k :: 0 <= k < |gs[1..]| ==> Encodable(gs[1..][k]);
      EncodedCarried(prefix + EncodeGroup(g), gs[1..], rest);
    }
  }

  /** Carried groups are held in the buffer and decode to their values, whatever
      their ids. */
  lemma {:induction false} CarriedDecodes(buf: seq<byte>, i: nat, gs: seq<Group>)
    requires CarriesAt(buf, i, gs)
    ensures HoldsGroups(buf, i, |gs|)
    ensures DecodeAt(buf, i, |gs|) == Some(ValuesOf(gs))
    decreases |gs|
  {
    if gs != [] {
      HeldReadable(buf, i);
      CarriedDecodes(buf, GroupEnd(buf, i), gs[1..]);
      assert ValuesOf(gs) == [gs[0].values] + ValuesOf(gs[1..]);
    }
  }

  /** The round trip of the wire format: ten encoded groups after a four-byte
      prefix decode to their values, whatever follows them. */
  lemma DecodeEncode(prefix: seq<byte>, gs: seq<Group>, rest: seq<byte>)
    requires |prefix| == FirstGroupOffset && |gs| == GroupCount
    requires forall k :: 0 <= k < |gs| ==> Encodable(gs[k])
    ensures Decode(prefix + EncodeGroups(gs) + rest) == Some(ValuesOf(gs))
  {
    EncodedCarried(prefix, gs, rest);
    CarriedDecodes(prefix + EncodeGroups(gs) + rest, |prefix|, gs);
  }
}
